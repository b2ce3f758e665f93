// From commands to commands: R2CP packets, base64, frames, any fragmentation with any
// control frames in between, any chunks of the byte stream, the reception queue, and all
// the way back.
module EndToEnd {
  import opened Bytes
  import opened Masking
  import opened Frame
  import opened OneShot
  import Hybi13
  import Reassembly
  import Sender
  import Base64
  import Base64Codec
  import R2CPSpec
  import R2CPTheorems
  import R2CPParser
  import opened PacketQueue

  type Parsed = R2CPSpec.Result<seq<R2CPSpec.Command>>

  /** The payloads that reach the message handler: not those of control messages, and
      none once the peer has closed. */
  function Handled(messages: seq<Message>): seq<seq<byte>>
    decreases |messages|
  {
    if messages == [] || messages[0].opcode == CLOSE then []
    else (if IsControl(messages[0].opcode) then [] else [messages[0].payload]) + Handled(messages[1..])
  }

  /** onmessage: each payload decoded is offered to the queue, and dropped if the queue
      does not admit it. */
  function Offered(s: Shared, payloads: seq<seq<byte>>): Shared
    decreases |payloads|
  {
    if payloads == [] then s else Offered(Offer(s, Base64.Decoded(payloads[0])), payloads[1..])
  }

  function Offer(s: Shared, p: Packet): Shared { if Admits(s, p) then Push(s, p) else s }

  lemma {:induction false} OfferedSnoc(s: Shared, before: seq<seq<byte>>, p: seq<byte>)
    ensures Offered(s, before + [p]) == Offer(Offered(s, before), Base64.Decoded(p))
    decreases |before|
  {
    hide Offer, Base64.Decoded;
    if before == [] {
      assert [p][1..] == [];
    } else {
      assert (before + [p])[1..] == before[1..] + [p];
      OfferedSnoc(Offer(s, Base64.Decoded(before[0])), before[1..], p);
    }
  }

  lemma {:induction false} HandledPrefix(messages: seq<Message>, i: nat)
    requires i < |messages| && forall j :: 0 <= j <= i ==> messages[j].opcode != CLOSE
    ensures Handled(messages[..i + 1]) ==
            Handled(messages[..i]) + if IsControl(messages[i].opcode) then [] else [messages[i].payload]
    decreases i
  {
    if i == 0 {
      assert messages[..1][1..] == [] && messages[..0] == [];
    } else {
      assert messages[..i + 1][1..] == messages[1..][..i] && messages[..i][1..] == messages[1..][..i - 1];
      HandledPrefix(messages[1..], i - 1);
    }
  }

  /** Nothing behind a close message is handled. */
  lemma {:induction false} HandledUntilClose(messages: seq<Message>, i: nat)
    requires i <= |messages| && (forall j :: 0 <= j < i ==> messages[j].opcode != CLOSE)
    requires i < |messages| ==> messages[i].opcode == CLOSE
    ensures Handled(messages) == Handled(messages[..i])
    decreases i
  {
    if i > 0 {
      assert messages[..i][1..] == messages[1..][..i - 1];
      HandledUntilClose(messages[1..], i - 1);
    }
  }

  /** A message is handled if no close, 8, comes before it and its opcode is below 8; what
      follows is handled unless it is the close. */
  lemma {:induction false} HandledExactly(before: seq<Message>, m: Message, after: seq<Message>)
    requires forall i :: 0 <= i < |before| ==> before[i].opcode as int != 8
    ensures Handled([]) == []
    ensures Handled(before + [m] + after) ==
            Handled(before) +
            if m.opcode as int == 8 then [] else (if m.opcode < 8 then [m.payload] else []) + Handled(after)
    decreases |before|
  {
    hide Handled;
    HandledFirst(m, after);
    if before == [] {
      assert [] + [m] + after == [m] + after;
    } else {
      HandledExactly(before[1..], m, after);
      HandledFirst(before[0], before[1..]);
      HandledFirst(before[0], before[1..] + [m] + after);
      assert before == [before[0]] + before[1..];
      assert before + [m] + after == [before[0]] + (before[1..] + [m] + after);
      JoinedThrice(if before[0].opcode < 8 then [before[0].payload] else [], Handled(before[1..]),
                   if m.opcode as int == 8 then [] else (if m.opcode < 8 then [m.payload] else []) + Handled(after));
    }
  }

  lemma JoinedThrice<T>(a: seq<T>, b: seq<T>, c: seq<T>)
    ensures a + (b + c) == a + b + c
  {
  }

  lemma HandledFirst(m: Message, after: seq<Message>)
    ensures Handled([]) == []
    ensures Handled([m] + after) ==
            if m.opcode as int == 8 then [] else (if m.opcode < 8 then [m.payload] else []) + Handled(after)
  {
    assert ([m] + after)[1..] == after;
  }

  /** Every payload is offered, whatever became of those before it: it is queued if the sum
      of 32 bits is within the maximum, and otherwise nothing changes. */
  lemma OfferedExactly(s: Shared, before: seq<seq<byte>>, p: seq<byte>)
    ensures Offered(s, []) == s
    ensures var (was, now) := (Offered(s, before), Offered(s, before + [p]));
      var packet := Base64.Decoded(p);
      var sum := (was.size + |packet| % 0x1_0000_0000) % 0x1_0000_0000;
      now == if sum <= was.max then Shared(was.queue + [packet], sum, was.max) else was
  {
    hide Base64.Decoded, Offered;
    OfferedSnoc(s, before, p);
    NothingOffered(s);
  }

  lemma HandledAcceptable(c: Config, s: seq<byte>)
    requires |s| + c.maxMessageSize < TWO_64
    ensures forall m :: m in Parse(c, None, s).messages && !IsControl(m.opcode) ==> |m.payload| <= c.maxMessageSize
  {
    hide Parse;
    Reassembly.DeliversAcceptable(c, None, s);
  }

  /** A connection that reads the chunks and hands every message to onmessage. */
  method Receive(c: Config, chunks: seq<seq<byte>>, queue: TransceiverQueue) returns (ec: Option<Error>)
    requires c.maxMessageSize < 0x8000_0000 && |Concat(chunks)| + c.maxMessageSize < TWO_64 && queue.Valid()
    modifies queue
    ensures var outcome := Parse(c, None, Concat(chunks));
      queue.Value() == Offered(old(queue.Value()), Handled(outcome.messages)) && ec == outcome.error
    ensures queue.Valid()
  {
    hide Parse, Base64.Decoded, Push, Admits, Counted, Handled, Offered;
    HandledAcceptable(c, Concat(chunks));
    var messages;
    messages, ec := Hybi13.ReadChunks(c, chunks);
    var i := 0;
    NothingOffered(queue.Value());
    assert messages[..0] == [];
    while i < |messages| && messages[i].opcode != CLOSE
      invariant 0 <= i <= |messages| && queue.Valid() && forall j :: 0 <= j < i ==> messages[j].opcode != CLOSE
      invariant queue.Value() == Offered(old(queue.Value()), Handled(messages[..i]))
    {
      var m := messages[i];
      HandledPrefix(messages, i);
      if !IsControl(m.opcode) {
        assert m in messages;
        var packet := Base64Codec.Base64Decode(m.payload);
        OfferedSnoc(old(queue.Value()), Handled(messages[..i]), m.payload);
        var _ := queue.PushPacket(packet);
      } else {
        assert Handled(messages[..i]) + [] == Handled(messages[..i]);
      }
      i := i + 1;
    }
    HandledUntilClose(messages, i);
  }

  lemma NothingOffered(s: Shared)
    ensures Handled([]) == [] && Offered(s, []) == s
  {
  }

  /** What executetask makes of the queued packets: invalid ones are logged, but
      out_of_range leaves the thread. */
  function Processed(packets: seq<Packet>): seq<Parsed>
    decreases |packets|
  {
    if packets == [] then []
    else
      var r := R2CPSpec.Parse(packets[0]);
      if r == R2CPSpec.OutOfRange then [r] else [r] + Processed(packets[1..])
  }

  /** out_of_range ends it: the packets before are processed, and none behind; without it
      all of them are. */
  lemma {:induction false} ProcessedUntil(packets: seq<Packet>, n: nat)
    requires n <= |packets| && (n < |packets| ==> R2CPSpec.Parse(packets[n]) == R2CPSpec.OutOfRange)
    requires forall i :: 0 <= i < n ==> R2CPSpec.Parse(packets[i]) != R2CPSpec.OutOfRange
    ensures |Processed(packets)| == if n < |packets| then n + 1 else n
    ensures forall i :: 0 <= i < |Processed(packets)| ==> Processed(packets)[i] == R2CPSpec.Parse(packets[i])
    decreases n
  {
    hide R2CPSpec.Parse;
    if n > 0 {
      assert forall i :: 0 <= i < |packets| - 1 ==> packets[1..][i] == packets[i + 1];
      ProcessedUntil(packets[1..], n - 1);
      assert forall i :: 1 <= i < |packets| ==> packets[i] == packets[1..][i - 1];
    }
  }

  lemma ProcessedStep(packets: seq<Packet>)
    ensures if packets == [] then Processed(packets) == []
            else
              var r := R2CPSpec.Parse(packets[0]);
              Processed(packets) == [r] + if r == R2CPSpec.OutOfRange then [] else Processed(packets[1..])
  {
    hide R2CPSpec.Parse;
  }

  /** The turns of the packet processor until the queue is empty, or the thread is left. */
  method ProcessPackets(queue: TransceiverQueue) returns (results: seq<Parsed>)
    requires queue.Valid() && |queue.queue| < TWO_32
    modifies queue
    ensures queue.Valid() && results == Processed(old(queue.queue))
    ensures |results| <= |old(queue.queue)| && queue.queue == old(queue.queue)[|results|..]
  {
    hide R2CPSpec.Parse, Counted, Pop, Processed;
    ghost var was := queue.queue;
    results := [];
    assert [] + Processed(was) == Processed(was);
    while true
      invariant queue.Valid() && |results| <= |was| < TWO_32 && queue.queue == was[|results|..]
      invariant results + Processed(queue.queue) == Processed(was)
      decreases |queue.queue|
    {
      ghost var now := queue.Value();
      ProcessedStep(now.queue);
      var ok, packet := queue.PopPacket();
      if !ok {
        break;
      }
      PopKeeps(now);
      var parser := new R2CPParser.R2CPParser();
      var r := parser.ParsePacket(packet);
      assert results + ([r] + Processed(now.queue[1..])) == results + [r] + Processed(now.queue[1..]);
      results := results + [r];
      if r == R2CPSpec.OutOfRange {
        break;
      }
    }
  }

  // --------------------------------------------------------- the sender

  /** A packet for the wire. */
  datatype Shipment = Shipment(magic: uint32, commands: seq<R2CPSpec.Command>)

  ghost predicate Shippable(s: Shipment) {
    && s.magic in {R2CPSpec.R2CP_MAGIC, R2CPSpec.RRCP_MAGIC} && R2CPTheorems.AllConforming(s.commands)
    && |R2CPSpec.ListBytes(R2CPTheorems.ToEntries(s.commands))| + 8 < TWO_32
  }

  ghost predicate AllShippable(ss: seq<Shipment>) {
    forall i :: 0 <= i < |ss| ==> Shippable(ss[i])
  }

  /** transmitr2cppackettask: the message for a packet. */
  function Text(s: Shipment): seq<byte>
    requires Shippable(s)
  {
    Base64.Encoded(R2CPSpec.Packet(s.magic, R2CPTheorems.ToEntries(s.commands)))
  }

  function Texts(ss: seq<Shipment>): seq<seq<byte>>
    requires AllShippable(ss)
  {
    seq(|ss|, i requires 0 <= i < |ss| => Text(ss[i]))
  }

  /** The packets themselves. */
  function Packets(ss: seq<Shipment>): seq<Packet>
    requires AllShippable(ss)
  {
    seq(|ss|, i requires 0 <= i < |ss| => R2CPSpec.Packet(ss[i].magic, R2CPTheorems.ToEntries(ss[i].commands)))
  }

  lemma PacketsCons(ss: seq<Shipment>)
    requires AllShippable(ss) && ss != []
    ensures Shippable(ss[0]) && AllShippable(ss[1..])
    ensures Texts(ss) == [Text(ss[0])] + Texts(ss[1..])
    ensures var p := R2CPSpec.Packet(ss[0].magic, R2CPTheorems.ToEntries(ss[0].commands));
      && Packets(ss) == [p] + Packets(ss[1..]) && Base64.Decoded(Text(ss[0])) == p && p != []
      && R2CPSpec.Parse(p) == R2CPSpec.Ok(ss[0].commands)
  {
    hide R2CPSpec.Parse, Base64.Decoded, Base64.Encoded, R2CPSpec.ListBytes, R2CPTheorems.ToEntries, Shippable;
    assert Shippable(ss[0]);
    PacketParses(ss[0]);
    assert forall i :: 0 <= i < |ss| - 1 ==> ss[1..][i] == ss[i + 1];
  }

  lemma PacketParses(s: Shipment)
    requires Shippable(s)
    ensures var p := R2CPSpec.Packet(s.magic, R2CPTheorems.ToEntries(s.commands));
      p != [] && Base64.Decoded(Text(s)) == p && R2CPSpec.Parse(p) == R2CPSpec.Ok(s.commands)
  {
    hide R2CPSpec.Parse, Base64.Decoded, Base64.Encoded, R2CPSpec.ListBytes, R2CPTheorems.ToEntries, R2CPSpec.Word32;
    Base64.DecodeEncode(R2CPSpec.Packet(s.magic, R2CPTheorems.ToEntries(s.commands)));
    R2CPTheorems.PacketRoundTrip(s.magic, s.commands);
  }

  lemma FitsIsPushed(s: Shared, p: Packet)
    requires Counted(s) && Total(s.queue) + |p| <= s.max
    ensures var t := Offer(s, p);
      Counted(t) && t.queue == s.queue + [p] && t.max == s.max && Total(t.queue) == Total(s.queue) + |p|
  {
    hide Counted, Admits, Push, Total;
    AdmitsExactly(s, p, Total(s.queue));
    PushCounts(s, p);
    PushKeeps(s, p);
    TotalSnoc(s.queue, p);
  }

  /** If all of them fit beside what is queued, the queue admits every one. */
  lemma {:induction false} AllAdmitted(s: Shared, ss: seq<Shipment>)
    requires AllShippable(ss) && Counted(s) && Total(s.queue) + Total(Packets(ss)) <= s.max
    ensures Offered(s, Texts(ss)).queue == s.queue + Packets(ss)
    decreases |ss|
  {
    hide Counted, Offer, R2CPSpec.Packet, Base64.Decoded, Text, Shippable, Texts, Packets, Offered, Total;
    if ss == [] {
      NothingShipped(s);
    } else {
      PacketsCons(ss);
      var p := Packets(ss)[0];
      TotalCons(p, Packets(ss[1..]));
      FitsIsPushed(s, p);
      OfferedCons(s, Text(ss[0]), Texts(ss[1..]));
      AllAdmitted(Offer(s, p), ss[1..]);
      assert s.queue + [p] + Packets(ss[1..]) == s.queue + ([p] + Packets(ss[1..]));
    }
  }

  lemma NothingShipped(s: Shared)
    ensures Texts([]) == [] && Packets([]) == [] && Offered(s, []).queue == s.queue + []
  {
  }

  lemma TotalCons(p: Packet, rest: seq<Packet>)
    ensures Total([p] + rest) == |p| + Total(rest)
  {
    assert ([p] + rest)[1..] == rest;
  }

  lemma OfferedCons(s: Shared, text: seq<byte>, rest: seq<seq<byte>>)
    ensures Offered(s, [text] + rest) == Offered(Offer(s, Base64.Decoded(text)), rest)
  {
    hide Offer, Base64.Decoded;
    assert ([text] + rest)[1..] == rest;
  }

  lemma {:induction false} PacketsProcessed(ss: seq<Shipment>)
    requires AllShippable(ss)
    ensures |Processed(Packets(ss))| == |ss| <= Total(Packets(ss))
    ensures forall i :: 0 <= i < |ss| ==> Processed(Packets(ss))[i] == R2CPSpec.Ok(ss[i].commands)
    decreases |ss|
  {
    hide R2CPSpec.Parse, R2CPSpec.Packet, Base64.Decoded, Text, Texts, Shippable;
    if ss != [] {
      PacketsCons(ss);
      assert Packets(ss)[1..] == Packets(ss[1..]);
      PacketsProcessed(ss[1..]);
      assert forall i :: 0 < i < |ss| ==> ss[i] == ss[1..][i - 1];
    }
  }

  /** End to end. If the frames spell the packets, in whatever fragments and with
      whatever control frames among them, and the queue has room for the packets, then
      whatever chunks the bytes arrive in, the commands come back, packet by packet and
      in order. */
  method Delivered(c: Config, ghost ss: seq<Shipment>, ghost frames: seq<Sender.Outgoing>, chunks: seq<seq<byte>>,
                   queue: TransceiverQueue)
      returns (results: seq<Parsed>, ec: Option<Error>)
    requires c.maxMessageSize < 0x8000_0000 && |Concat(chunks)| + c.maxMessageSize < TWO_64
    requires AllShippable(ss) && Sender.Sized(frames) && Sender.Legal(c, None, frames)
    requires Handled(Reassembly.Assemble(None, Sender.Infos(frames))) == Texts(ss)
    requires Concat(chunks) == Sender.WireOf(frames)
    requires queue.Valid() && queue.queue == [] && Total(Packets(ss)) <= queue.max
    modifies queue
    ensures ec == None && |results| == |ss|
    ensures forall i :: 0 <= i < |ss| ==> results[i] == R2CPSpec.Ok(ss[i].commands)
    ensures queue.Valid() && queue.queue == []
  {
    hide Parse, Texts, Shippable, Sender.Legal, Sender.WireOf, Counted, Packets, Offered, Handled, Processed;
    Sender.StreamRoundTrip(c, None, frames);
    AllAdmitted(queue.Value(), ss);
    PacketsProcessed(ss);
    PacketsLength(ss);
    ec := Receive(c, chunks, queue);
    assert [] + Packets(ss) == Packets(ss);
    results := ProcessPackets(queue);
  }

  lemma PacketsLength(ss: seq<Shipment>)
    requires AllShippable(ss)
    ensures |Packets(ss)| == |ss|
  {
    hide R2CPSpec.Packet;
  }

  /** onmessage decodes the payloads. */
  function Decodings(payloads: seq<seq<byte>>): seq<Packet> {
    seq(|payloads|, i requires 0 <= i < |payloads| => Base64.Decoded(payloads[i]))
  }

  lemma DecodingsArePackets(ss: seq<Shipment>)
    requires AllShippable(ss)
    ensures Decodings(Texts(ss)) == Packets(ss)
  {
    hide Base64.Decoded, R2CPSpec.Packet, Text, Shippable;
    forall i | 0 <= i < |ss| ensures Base64.Decoded(Text(ss[i])) == Packets(ss)[i] {
      assert Shippable(ss[i]);
      PacketParses(ss[i]);
    }
  }

  /** End to end with the packet processor taking packets while others still arrive. The
      receiver is the one producer of the queue: it checks and pushes the payloads that the
      stream delivers, decoded and in order. If the maximum always has room for all the
      packets, then in every interleaving with any number of consumers the packets popped
      so far parse to the first of the commands sent, in order. */
  lemma DeliveredInterleaved(c: Config, ss: seq<Shipment>, frames: seq<Sender.Outgoing>, states: seq<System>,
                             events: seq<Event>, consumers: nat, max: uint32, i: nat)
    requires AllShippable(ss) && Sender.Sized(frames) && Sender.Legal(c, None, frames)
    requires Handled(Reassembly.Assemble(None, Sender.Infos(frames))) == Texts(ss)
    requires RunFrom(states, events, 1, consumers, max) && i < |states|
    requires Checks(events) <= Decodings(Handled(Parse(c, None, Sender.WireOf(frames)).messages))
    requires Total(Packets(ss)) <= max && MaximaAtLeast(events, Total(Packets(ss)))
    ensures |states[i].popped| <= |ss|
    ensures forall j :: 0 <= j < |states[i].popped| ==>
              R2CPSpec.Parse(states[i].popped[j]) == R2CPSpec.Ok(ss[j].commands)
    ensures states[i].popped + states[i].shared.queue + Waiting(states[i]) == Checks(events[..i]) <= Packets(ss)
  {
    hide Parse, Shippable, RunFrom, Texts, Packets, Decodings, Sender.Legal, Handled, Total, Checks, MaximaAtLeast,
      R2CPSpec.Parse;
    Sender.StreamRoundTrip(c, None, frames);
    DecodingsArePackets(ss);
    RunLength(states, events, 1, consumers, max);
    PoppedParse(ss, states, events, consumers, max, i);
  }

  lemma PoppedParse(ss: seq<Shipment>, states: seq<System>, events: seq<Event>, consumers: nat, max: uint32, i: nat)
    requires AllShippable(ss) && RunFrom(states, events, 1, consumers, max) && i <= |events| < |states|
    requires Checks(events) <= Packets(ss)
    requires Total(Packets(ss)) <= max && MaximaAtLeast(events, Total(Packets(ss)))
    ensures |states[i].popped| <= |ss|
    ensures forall j :: 0 <= j < |states[i].popped| ==>
              R2CPSpec.Parse(states[i].popped[j]) == R2CPSpec.Ok(ss[j].commands)
    ensures states[i].popped + states[i].shared.queue + Waiting(states[i]) == Checks(events[..i]) <= Packets(ss)
  {
    hide R2CPSpec.Parse, R2CPSpec.Packet, Shippable, IsRun, Packets, Total, Checks, MaximaAtLeast, Counted;
    PacketsLength(ss);
    PrefixTotal(Checks(events), Packets(ss));
    AllPushed(states, events, consumers, max, Total(Packets(ss)), i);
    ChecksPrefix(events, i);
    var popped := states[i].popped;
    forall j | 0 <= j < |popped| ensures R2CPSpec.Parse(popped[j]) == R2CPSpec.Ok(ss[j].commands) {
      assert popped[j] == Checks(events[..i])[j] == Packets(ss)[j];
      PacketAt(ss, j);
    }
  }

  lemma PacketAt(ss: seq<Shipment>, j: nat)
    requires AllShippable(ss) && j < |ss|
    ensures |Packets(ss)| == |ss| && R2CPSpec.Parse(Packets(ss)[j]) == R2CPSpec.Ok(ss[j].commands)
  {
    hide R2CPSpec.Parse, R2CPSpec.Packet, Shippable;
    assert Shippable(ss[j]);
    PacketParses(ss[j]);
  }

  lemma PrefixTotal(a: seq<Packet>, b: seq<Packet>)
    requires a <= b
    ensures Total(a) <= Total(b)
  {
    TotalConcat(a, b[|a|..]);
    assert b == a + b[|a|..];
  }

  // ------------------------------------ one frame a message, as transmitted

  /** The frames of prepare_data_frame, one for each packet, with any masking keys. */
  function Frames(isServer: bool, ss: seq<Shipment>, keys: seq<MaskingKey>): seq<Sender.Outgoing>
    requires AllShippable(ss) && |keys| == |ss|
  {
    if ss == [] then []
    else
      var f := Sender.Outgoing(BINARY, true, Text(ss[0]), Sender.KeyFor(isServer, keys[0]));
      [f] + Frames(isServer, ss[1..], keys[1..])
  }

  /** They meet the conditions above. */
  lemma {:induction false} FramesAreLegal(c: Config, ss: seq<Shipment>, keys: seq<MaskingKey>)
    requires AllShippable(ss) && |keys| == |ss|
    requires forall i :: 0 <= i < |ss| ==> |Text(ss[i])| <= c.maxMessageSize
    ensures var frames := Frames(!c.isServer, ss, keys);
      && Sender.Sized(frames) && Sender.Legal(c, None, frames)
      && Handled(Reassembly.Assemble(None, Sender.Infos(frames))) == Texts(ss)
    decreases |ss|
  {
    hide Text, Shippable, Texts, Handled, Sender.Legal, Reassembly.Assemble, Sender.Infos, Sender.KeyFor;
    if ss == [] {
      NoFrames(c);
    } else {
      var f := Sender.Outgoing(BINARY, true, Text(ss[0]), Sender.KeyFor(!c.isServer, keys[0]));
      var rest := Frames(!c.isServer, ss[1..], keys[1..]);
      FramesAreLegal(c, ss[1..], keys[1..]);
      KeyForPeer(c, keys[0]);
      FrameLegal(c, f, rest);
      FrameHandled(f, rest);
      PacketsCons(ss);
    }
  }

  lemma NoFrames(c: Config)
    ensures Sender.Legal(c, None, []) && Handled(Reassembly.Assemble(None, Sender.Infos([]))) == [] && Texts([]) == []
  {
  }

  lemma KeyForPeer(c: Config, key: MaskingKey)
    ensures c.isServer == Sender.KeyFor(!c.isServer, key).Some?
  {
  }

  lemma FrameLegal(c: Config, f: Sender.Outgoing, rest: seq<Sender.Outgoing>)
    requires f.op == BINARY && f.fin && c.isServer == f.key.Some? && |f.payload| <= c.maxMessageSize
    requires Sender.Sized(rest) && Sender.Legal(c, None, rest)
    ensures Sender.Sized([f] + rest) && Sender.Legal(c, None, [f] + rest)
  {
    assert ([f] + rest)[1..] == rest;
  }

  lemma FrameHandled(f: Sender.Outgoing, rest: seq<Sender.Outgoing>)
    requires f.op == BINARY && f.fin
    ensures Handled(Reassembly.Assemble(None, Sender.Infos([f] + rest))) ==
            [f.payload] + Handled(Reassembly.Assemble(None, Sender.Infos(rest)))
  {
    assert ([f] + rest)[1..] == rest;
    var i := Reassembly.FrameInfo(f.op, f.fin, f.payload);
    assert Sender.Infos([f] + rest) == [i] + Sender.Infos(rest);
    assert ([i] + Sender.Infos(rest))[1..] == Sender.Infos(rest);
    var ms := Reassembly.Assemble(None, Sender.Infos(rest));
    assert ([Message(f.op, f.payload)] + ms)[1..] == ms;
  }
}
