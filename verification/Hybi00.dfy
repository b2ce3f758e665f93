// processors/hybi00.hpp: text between the bytes 0x00 and 0xFF.
module Hybi00 {
  import opened Bytes
  import opened Frame
  import Utf8
  import Sender

  const MSG_HDR: byte := 0x00
  const MSG_FTR: byte := 0xFF

  // -------------------------------------------------------- byte by byte

  /** The payload of the message begun, the messages completed, and whether a byte other
      than the marker stood where a message begins. */
  datatype Progress = Progress(begun: Option<seq<byte>>, messages: seq<seq<byte>>, failed: bool)

  const START: Progress := Progress(None, [], false)

  function One(p: Progress, b: byte): Progress {
    match p.begun
    case None => if b == MSG_HDR then p.(begun := Some([])) else p.(failed := true)
    case Some(m) => if b == MSG_FTR then p.(begun := None, messages := p.messages + [m]) else p.(begun := Some(m + [b]))
  }

  function Read(p: Progress, s: seq<byte>): Progress
    decreases |s|
  {
    if s == [] || p.failed then p else Read(One(p, s[0]), s[1..])
  }

  lemma {:induction false} ReadConcat(p: Progress, a: seq<byte>, b: seq<byte>)
    ensures Read(p, a + b) == Read(Read(p, a), b)
    decreases |a|
  {
    if a == [] {
      assert a + b == b;
    } else if !p.failed {
      assert (a + b)[1..] == a[1..] + b;
      ReadConcat(One(p, a[0]), a[1..], b);
    }
  }

  /** Messages already completed make no difference. */
  lemma {:induction false} ReadAfter(p: Progress, s: seq<byte>)
    ensures Read(p, s) ==
            (var r := Read(p.(messages := []), s); r.(messages := p.messages + r.messages))
    decreases |s|
  {
    if s != [] && !p.failed {
      var n, n0 := One(p, s[0]), One(p.(messages := []), s[0]);
      ReadAfter(n, s[1..]);
      ReadAfter(n0, s[1..]);
      var r := Read(n.(messages := []), s[1..]);
      assert n0.(messages := []) == n.(messages := []);
      assert n.messages + r.messages == p.messages + (n0.messages + r.messages);
    } else {
      assert p.messages + [] == p.messages;
    }
  }

  /** A stretch without the end marker. */
  lemma {:induction false} ReadPayload(p: Progress, s: seq<byte>)
    requires p.begun.Some? && !p.failed && MSG_FTR !in s
    ensures Read(p, s) == p.(begun := Some(p.begun.value + s))
    decreases |s|
  {
    if s == [] {
      assert p.begun.value + s == p.begun.value;
    } else {
      ReadPayload(One(p, s[0]), s[1..]);
      assert p.begun.value + [s[0]] + s[1..] == p.begun.value + s;
    }
  }

  // ------------------------------------------- what the stream looks like

  function Frames(texts: seq<seq<byte>>): seq<byte>
    decreases |texts|
  {
    if texts == [] then []
    else Frames(texts[..|texts| - 1]) + [MSG_HDR] + texts[|texts| - 1] + [MSG_FTR]
  }

  predicate Clean(texts: seq<seq<byte>>) {
    forall i :: 0 <= i < |texts| ==> MSG_FTR !in texts[i]
  }

  /** Whole messages, and the beginning of another. */
  function Stream(p: Progress): seq<byte> {
    Frames(p.messages) + if p.begun.Some? then [MSG_HDR] + p.begun.value else []
  }

  ghost predicate CleanProgress(p: Progress) {
    !p.failed && Clean(p.messages) && (p.begun.Some? ==> MSG_FTR !in p.begun.value)
  }

  lemma OneExtends(p: Progress, b: byte)
    requires CleanProgress(p) && !One(p, b).failed
    ensures CleanProgress(One(p, b)) && Stream(One(p, b)) == Stream(p) + [b]
  {
    var n := One(p, b);
    if n.messages != p.messages {
      assert n.messages[..|n.messages| - 1] == p.messages;
    }
  }

  /** What is read is exactly what stands in the stream: without an error, the stream is
      the messages between their markers, and what was begun. */
  lemma {:induction false} ReadIsStream(p: Progress, s: seq<byte>)
    requires CleanProgress(p) && !Read(p, s).failed
    ensures CleanProgress(Read(p, s)) && Stream(Read(p, s)) == Stream(p) + s
    decreases |s|
  {
    hide Stream, CleanProgress, One;
    if s == [] {
      assert Stream(p) + s == Stream(p);
    } else {
      NotFailedYet(p, s);
      OneExtends(p, s[0]);
      ReadIsStream(One(p, s[0]), s[1..]);
      assert Stream(p) + [s[0]] + s[1..] == Stream(p) + s;
    }
  }

  lemma NotFailedYet(p: Progress, s: seq<byte>)
    requires s != [] && !p.failed && !Read(p, s).failed
    ensures !One(p, s[0]).failed
  {
    FailedStays(One(p, s[0]), s[1..]);
  }

  lemma FailedStays(p: Progress, s: seq<byte>)
    ensures p.failed ==> Read(p, s) == p
  {
  }

  /** And every such stream is read back. */
  lemma {:induction false} StreamIsRead(texts: seq<seq<byte>>)
    requires Clean(texts)
    ensures Read(START, Frames(texts)) == Progress(None, texts, false)
    decreases |texts|
  {
    hide Read, Frames, Clean, One;
    if texts == [] {
      NothingRead(START);
      NoFrames();
    } else {
      var n := |texts| - 1;
      var before, t := texts[..n], texts[n];
      LastFrame(texts);
      StreamIsRead(before);
      ReadConcat(START, Frames(before), [MSG_HDR] + t + [MSG_FTR]);
      MessageRead(Progress(None, before, false), t);
    }
  }

  lemma NoFrames()
    ensures Frames([]) == []
  {
  }

  lemma LastFrame(texts: seq<seq<byte>>)
    requires Clean(texts) && texts != []
    ensures var n := |texts| - 1;
      && Clean(texts[..n]) && MSG_FTR !in texts[n] && texts == texts[..n] + [texts[n]]
      && Frames(texts) == Frames(texts[..n]) + ([MSG_HDR] + texts[n] + [MSG_FTR])
  {
    hide Clean, Frames;
    var n := |texts| - 1;
    CleanButLast(texts);
    FramesButLast(texts);
    Grouped(Frames(texts[..n]), [MSG_HDR], texts[n], [MSG_FTR]);
  }

  lemma Grouped(a: seq<byte>, b: seq<byte>, c: seq<byte>, d: seq<byte>)
    ensures a + b + c + d == a + (b + c + d)
  {
  }

  lemma CleanButLast(texts: seq<seq<byte>>)
    requires Clean(texts) && texts != []
    ensures Clean(texts[..|texts| - 1]) && MSG_FTR !in texts[|texts| - 1]
  {
  }

  lemma FramesButLast(texts: seq<seq<byte>>)
    requires texts != []
    ensures Frames(texts) == Frames(texts[..|texts| - 1]) + [MSG_HDR] + texts[|texts| - 1] + [MSG_FTR]
  {
  }

  lemma NothingRead(p: Progress)
    ensures Read(p, []) == p
  {
  }

  lemma MessageRead(p: Progress, t: seq<byte>)
    requires p.begun.None? && !p.failed && MSG_FTR !in t
    ensures Read(p, [MSG_HDR] + t + [MSG_FTR]) == p.(messages := p.messages + [t])
  {
    var started := One(p, MSG_HDR);
    assert ([MSG_HDR] + t + [MSG_FTR])[1..] == t + [MSG_FTR];
    ReadConcat(started, t, [MSG_FTR]);
    ReadPayload(started, t);
    assert [] + t == t;
    assert [MSG_FTR][1..] == [];
  }

  // --------------------------------------------------------------- sender

  /** prepare_data_frame */
  method PrepareDataFrame(op: Opcode, payload: seq<byte>) returns (out: Sender.Prepared)
    ensures out == if op != TEXT then Sender.Refused(InvalidOpcode)
                   else if !Utf8.WellFormed(payload) then Sender.Refused(InvalidPayload)
                   else Sender.Ready([MSG_HDR], payload + [MSG_FTR])
    ensures out.Ready? ==> Read(START, Sender.Wire(out)) == Progress(None, [payload], false)
  {
    hide Utf8.WellFormed, Utf8.Valid, Read;
    if op != TEXT {
      return Sender.Refused(InvalidOpcode);
    }
    var ok := Utf8.Validate(payload);
    if !ok {
      return Sender.Refused(InvalidPayload);
    }
    out := Sender.Ready([MSG_HDR], payload + [MSG_FTR]);
    TextIsClean(payload);
    MessageRead(START, payload);
    assert [MSG_HDR] + (payload + [MSG_FTR]) == [MSG_HDR] + payload + [MSG_FTR];
  }

  /** Text that the validator accepts never contains the end marker. */
  lemma TextIsClean(t: seq<byte>)
    requires Utf8.WellFormed(t)
    ensures MSG_FTR !in t
  {
    hide Utf8.WellFormed, Utf8.Run;
    Utf8.ValidIffWellFormed(t);
    Utf8.NeverFF(Utf8.FRESH, t);
  }

  /** The close frame of prepare_close is an error to consume exactly between messages;
      inside one, its first byte ends the message and its second begins another. */
  lemma CloseIsViolation(p: Progress)
    requires !p.failed
    ensures Read(p, [0xFF, 0x00]).failed <==> p.begun.None?
    ensures p.begun.None? ==> Read(p, [0xFF, 0x00]) == p.(failed := true)
    ensures p.begun.Some? ==> Read(p, [0xFF, 0x00]) == Progress(Some([]), p.messages + [p.begun.value], false)
  {
    hide Read;
    var one := One(p, 0xFF);
    assert [0xFF, 0x00][1..] == [0x00] && [0x00][1..] == [];
    ReadStep(p, [0xFF, 0x00]);
    if !one.failed {
      ReadStep(one, [0x00]);
      NothingRead(One(one, 0x00));
    } else {
      FailedStays(one, [0x00]);
    }
  }

  lemma ReadStep(p: Progress, s: seq<byte>)
    requires s != [] && !p.failed
    ensures Read(p, s) == Read(One(p, s[0]), s[1..])
  {
  }

  // ------------------------------------------------------------- receiver

  datatype State = HEADER | PAYLOAD | READY | FATAL_ERROR

  class Processor {
    var state: State
    var message: seq<byte>

    /** What has been read of the current message. */
    function Value(): Progress
      reads this
    {
      Progress(if state == PAYLOAD then Some(message) else None,
               if state == READY then [message] else [],
               state == FATAL_ERROR)
    }

    constructor ()
      ensures state == HEADER && Value() == START
    {
      state, message := HEADER, [];
    }

    /** consume: up to the end of the first message, or of the buffer. */
    method Consume(buf: seq<byte>) returns (p: nat, ec: Option<Error>)
      requires state in {HEADER, PAYLOAD}
      modifies this
      ensures p <= |buf|
      ensures ec == if state == FATAL_ERROR then Some(ProtocolViolation) else None
      ensures state == FATAL_ERROR ==> Read(old(Value()), buf) == Progress(None, [], true)
      ensures state == READY ==> p > 0 && Read(old(Value()), buf[..p]) == Progress(None, [message], false)
      ensures state in {HEADER, PAYLOAD} ==> p == |buf| && Read(old(Value()), buf) == Value()
    {
      hide Read;
      p, ec := 0, None;
      ghost var was := Value();
      NothingRead(was);
      assert buf[..0] == [];
      while p < |buf|
        invariant p <= |buf| && (state == READY ==> p > 0)
        invariant state != FATAL_ERROR ==> Read(was, buf[..p]) == Value()
        invariant state == FATAL_ERROR ==> Read(was, buf) == Progress(None, [], true)
        invariant ec == if state == FATAL_ERROR then Some(ProtocolViolation) else None
        decreases |buf| - p, if state in {HEADER, PAYLOAD} then 1 else 0
      {
        ReadOn(was, buf, p, |buf|);
        if state == HEADER {
          HeaderByte(Value(), buf[p..]);
          if buf[p] == MSG_HDR {
            ReadOn(was, buf, p, p + 1);
            p := p + 1;
            message := [];
            state := PAYLOAD;
          } else {
            ec := Some(ProtocolViolation);
            state := FATAL_ERROR;
          }
        } else if state == PAYLOAD {
          var l := FindFooter(buf[p..]);
          PayloadBytes(Value(), buf[p..], l);
          ReadOn(was, buf, p, p + l);
          message := message + buf[p..p + l];
          p := p + l;
          if p != |buf| {
            ReadOn(was, buf, p, p + 1);
            FooterByte(Value());
            p := p + 1;
            state := READY;
          }
        } else {
          break;
        }
      }
      assert p == |buf| ==> buf[..p] == buf;
    }

    /** std::find */
    static method FindFooter(s: seq<byte>) returns (l: nat)
      ensures l <= |s| && MSG_FTR !in s[..l] && (l < |s| ==> s[l] == MSG_FTR)
    {
      l := 0;
      while l < |s| && s[l] != MSG_FTR
        invariant l <= |s| && MSG_FTR !in s[..l]
      {
        l := l + 1;
      }
    }

    /** From p to q in the buffer. */
    static lemma ReadOn(was: Progress, buf: seq<byte>, p: nat, q: nat)
      requires p <= q <= |buf|
      ensures Read(was, buf[..q]) == Read(Read(was, buf[..p]), buf[p..q])
      ensures buf[..|buf|] == buf && buf[p..|buf|] == buf[p..] && buf[p..][..q - p] == buf[p..q]
      ensures q == p + 1 ==> buf[p..q] == [buf[p]]
    {
      hide Read;
      ReadConcat(was, buf[..p], buf[p..q]);
      assert buf[..q] == buf[..p] + buf[p..q];
    }

    static lemma HeaderByte(p: Progress, s: seq<byte>)
      requires p == START && s != []
      ensures if s[0] == MSG_HDR then Read(p, [s[0]]) == Progress(Some([]), [], false)
              else Read(p, s) == Progress(None, [], true)
    {
      assert [s[0]][1..] == [];
    }

    static lemma PayloadBytes(p: Progress, s: seq<byte>, l: nat)
      requires p.begun.Some? && !p.failed && l <= |s| && MSG_FTR !in s[..l]
      ensures Read(p, s[..l]) == p.(begun := Some(p.begun.value + s[..l]))
    {
      ReadPayload(p, s[..l]);
    }

    static lemma FooterByte(p: Progress)
      requires p.begun.Some? && !p.failed
      ensures Read(p, [MSG_FTR]) == Progress(None, p.messages + [p.begun.value], false)
    {
      assert [MSG_FTR][1..] == [];
    }

    /** get_message */
    method GetMessage() returns (m: seq<byte>)
      requires state == READY
      modifies this
      ensures m == old(message) && state == HEADER && Value() == START
    {
      m := message;
      message := [];
      state := HEADER;
    }
  }

  /** The loop of handle_read_frame over every chunk read, up to the first error. */
  method ReadChunks(chunks: seq<seq<byte>>) returns (messages: seq<seq<byte>>, failed: bool)
    ensures var r := Read(START, Concat(chunks)); messages == r.messages && failed == r.failed
    ensures forall texts :: AllWellFormed(texts) && Concat(chunks) == Frames(texts) ==> messages == texts && !failed
  {
    hide Read, AllWellFormed, Frames;
    forall texts | AllWellFormed(texts) && Concat(chunks) == Frames(texts)
      ensures Read(START, Concat(chunks)) == Progress(None, texts, false)
    {
      FramesAreRead(texts);
    }
    var processor := new Processor();
    messages, failed := [], false;
    var i := 0;
    NothingRead(START);
    while i < |chunks| && !failed
      invariant 0 <= i <= |chunks| && fresh(processor)
      invariant failed ==> Read(START, Concat(chunks[..i])) == Progress(None, messages, true)
      invariant !failed ==> processor.state in {HEADER, PAYLOAD}
      invariant !failed ==> Read(START, Concat(chunks[..i])) == processor.Value().(messages := messages)
    {
      ConcatSnoc(chunks, i);
      ReadConcat(START, Concat(chunks[..i]), chunks[i]);
      messages, failed := ReadOne(processor, chunks[i], messages);
      i := i + 1;
    }
    if failed {
      FailedForGood(chunks, i);
    }
    assert chunks[..|chunks|] == chunks;
  }

  lemma FailedForGood(chunks: seq<seq<byte>>, i: nat)
    requires i <= |chunks| && Read(START, Concat(chunks[..i])).failed
    ensures Read(START, Concat(chunks)) == Read(START, Concat(chunks[..i]))
  {
    hide Read, Concat;
    ConcatSplit(chunks, i);
    ReadConcat(START, Concat(chunks[..i]), Concat(chunks[i..]));
    FailedStays(Read(START, Concat(chunks[..i])), Concat(chunks[i..]));
  }

  /** The same loop over one buffer. */
  method ReadOne(processor: Processor, chunk: seq<byte>, before: seq<seq<byte>>)
      returns (messages: seq<seq<byte>>, failed: bool)
    requires processor.state in {HEADER, PAYLOAD}
    modifies processor
    ensures failed ==> Read(old(processor.Value()).(messages := before), chunk) == Progress(None, messages, true)
    ensures !failed ==> processor.state in {HEADER, PAYLOAD}
    ensures !failed ==>
              Read(old(processor.Value()).(messages := before), chunk) ==
              processor.Value().(messages := messages)
  {
    hide Read;
    messages, failed := before, false;
    ghost var was := processor.Value().(messages := before);
    var p := 0;
    NothingRead(was);
    assert chunk[..0] == [];
    while p < |chunk|
      invariant p <= |chunk| && processor.state in {HEADER, PAYLOAD}
      invariant Read(was, chunk[..p]) == processor.Value().(messages := messages)
    {
      ghost var now := processor.Value().(messages := messages);
      assert chunk == chunk[..p] + chunk[p..];
      ReadConcat(was, chunk[..p], chunk[p..]);
      ReadAfter(now, chunk[p..]);
      var n, ec := processor.Consume(chunk[p..]);
      if ec.Some? {
        assert messages + [] == messages;
        failed := true;
        return;
      }
      ReadConcat(was, chunk[..p], chunk[p..][..n]);
      ReadAfter(now, chunk[p..][..n]);
      assert chunk[..p + n] == chunk[..p] + chunk[p..][..n];
      p := p + n;
      if processor.state == READY {
        var m := processor.GetMessage();
        messages := messages + [m];
      } else {
        assert chunk[p - n..][..n] == chunk[p - n..];
        assert messages + [] == messages;
      }
    }
    assert chunk[..p] == chunk;
  }

  ghost predicate AllWellFormed(texts: seq<seq<byte>>) {
    forall i :: 0 <= i < |texts| ==> Utf8.WellFormed(texts[i])
  }

  /** Texts that prepare_data_frame accepts are read back. */
  lemma FramesAreRead(texts: seq<seq<byte>>)
    requires AllWellFormed(texts)
    ensures Read(START, Frames(texts)) == Progress(None, texts, false)
  {
    hide Utf8.WellFormed, Read, Frames;
    forall i | 0 <= i < |texts| ensures MSG_FTR !in texts[i] {
      TextIsClean(texts[i]);
    }
    StreamIsRead(texts);
  }
}
