// Text messages in two or more frames, with any control frames in between.
module Fragments {
  import opened Bytes
  import opened Masking
  import opened Frame
  import opened OneShot
  import opened Sender
  import Reassembly
  import Utf8

  /** What may follow while a message of the given size is under assembly, up to and with
      its last frame: continuations within the limit, and control frames. */
  ghost predicate Remainder(c: Config, size: nat, fs: seq<Outgoing>)
    decreases |fs|
  {
    fs != [] &&
    var f := fs[0];
    c.isServer == f.key.Some? &&
    if IsControl(f.op) then
      f.op in {CLOSE, PING, PONG} && f.fin && |f.payload| <= PAYLOAD_SIZE_BASIC && Remainder(c, size, fs[1..])
    else
      && f.op == CONTINUATION && size + |f.payload| <= c.maxMessageSize
      && if f.fin then fs[1..] == [] else Remainder(c, size + |f.payload|, fs[1..])
  }

  /** The payloads of the data frames, joined. */
  function Text(fs: seq<Outgoing>): seq<byte>
    decreases |fs|
  {
    if fs == [] then [] else (if IsControl(fs[0].op) then [] else fs[0].payload) + Text(fs[1..])
  }

  /** The control messages, in order. */
  function Controls(fs: seq<Outgoing>): seq<Message>
    decreases |fs|
  {
    if fs == [] then []
    else (if IsControl(fs[0].op) then [Message(fs[0].op, fs[0].payload)] else []) + Controls(fs[1..])
  }

  /** A data frame that makes the text invalid fails the stream there. */
  lemma RejectedFrameFails(c: Config, data: Option<Assembly>, f: Outgoing, rest: seq<byte>)
    requires |f.payload| < TWO_64 && Welcome(c, data, f.op, f.fin, |f.payload|, f.key) && Rejected(Extended(data, f))
    ensures Parse(c, data, Wire(Encoded(f.op, f.fin, f.payload, f.key)) + rest) == Failed(InvalidUtf8)
  {
    hide ParseHead, Encoded, MakeBasicHeader, Utf8.Run, Parse;
    var s := Wire(Encoded(f.op, f.fin, f.payload, f.key));
    EncodedParses(c, data, f.op, f.fin, f.payload, f.key);
    BasicHeaderInverse(f.op, |f.payload|, f.fin, f.key.Some?, false, false, false);
    assert Partial(data, ParseHead(c, data, s), s) == Extended(data, f);
    RejectedFails(c, data, s);
  }

  /** The rest of a text message decides it: the message is delivered behind the control
      messages, or the text was rejected on the way. */
  lemma {:induction false} RemainderDecides(c: Config, a: Assembly, fs: seq<Outgoing>)
    requires a.opcode == TEXT && !Rejected(a) && Sized(fs) && Remainder(c, |a.payload|, fs)
    ensures var o := Parse(c, Some(a), WireOf(fs));
      if Utf8.Run(a.utf8, Text(fs)).state != Utf8.REJECT then
        o == Outcome(Controls(fs) + [Message(TEXT, a.payload + Text(fs))], None)
      else o.error == Some(InvalidUtf8) && o.messages <= Controls(fs)
    decreases |fs|
  {
    hide Parse, Encoded, Utf8.Run, ParseHead, Delivers, Welcome, Remainder, Text, Controls, Extended, Next, Rejected;
    RemainderStep(c, a, fs);
    var f, rest := fs[0], fs[1..];
    var s := Wire(Encoded(f.op, f.fin, f.payload, f.key));
    if IsControl(f.op) {
      EncodedDelivers(c, Some(a), f);
      RemainderDecides(c, a, rest);
      DeliversThen(c, Some(a), s, [Message(f.op, f.payload)], Some(a), WireOf(rest));
    } else {
      var b := Extended(Some(a), f);
      TextStep(a, f.payload, Text(rest));
      if Rejected(b) {
        RejectedFrameFails(c, Some(a), f, WireOf(rest));
      } else {
        EncodedDelivers(c, Some(a), f);
        if f.fin {
          NothingFollows(c, None);
          DeliversThen(c, Some(a), s, [Deliver(b)], None, WireOf(rest));
          assert [Deliver(b)] + [] == [] + [Deliver(b)];
        } else {
          RemainderDecides(c, b, rest);
          DeliversThen(c, Some(a), s, [], Some(b), WireOf(rest));
          assert a.payload + f.payload + Text(rest) == a.payload + (f.payload + Text(rest));
        }
      }
    }
  }

  /** The first of the frames that follow. */
  lemma RemainderStep(c: Config, a: Assembly, fs: seq<Outgoing>)
    requires a.opcode == TEXT && !Rejected(a) && Sized(fs) && Remainder(c, |a.payload|, fs)
    ensures fs != []
    ensures var f, rest := fs[0], fs[1..];
      && Welcome(c, Some(a), f.op, f.fin, |f.payload|, f.key) && f.op != TEXT
      && if IsControl(f.op) then
           && f.fin && Next(Some(a), f) == Some(a) && Remainder(c, |a.payload|, rest) && Text(fs) == Text(rest)
           && Controls(fs) == [Message(f.op, f.payload)] + Controls(rest)
           && Deliver(Extended(Some(a), f)) == Message(f.op, f.payload) && !Rejected(Extended(Some(a), f))
         else
           && Extended(Some(a), f) == Advance(a, f.payload)
           && Deliver(Extended(Some(a), f)) == Message(TEXT, a.payload + f.payload)
           && Text(fs) == f.payload + Text(rest) && Controls(fs) == Controls(rest)
           && if f.fin then rest == [] && Next(Some(a), f) == None && Text(fs) == f.payload && Controls(fs) == []
              else Next(Some(a), f) == Some(Extended(Some(a), f)) && Remainder(c, |a.payload + f.payload|, rest)
  {
    hide Utf8.Run;
    var f, rest := fs[0], fs[1..];
    ExtendedMessage(Some(a), f);
    assert [] + Text(rest) == Text(rest) && [] + Controls(rest) == Controls(rest);
    assert f.payload + [] == f.payload;
  }

  lemma TextStep(a: Assembly, payload: seq<byte>, rest: seq<byte>)
    requires a.opcode == TEXT && !Rejected(a)
    ensures var b := Advance(a, payload);
      if Rejected(b) then Utf8.Run(a.utf8, payload + rest).state == Utf8.REJECT
      else Utf8.Run(a.utf8, payload + rest) == Utf8.Run(b.utf8, rest)
    ensures Rejected(Advance(a, payload)) <==> Utf8.Run(a.utf8, payload).state == Utf8.REJECT
    ensures Utf8.Run(a.utf8, []) == a.utf8
  {
    Utf8.RunConcat(a.utf8, payload, rest);
  }

  /** A text message in two or more frames: it is delivered, behind the control messages
      among its frames, if and only if some continuation makes its text well-formed. Where
      it ends is not looked at. */
  lemma FragmentedTextDelivered(c: Config, f: Outgoing, fs: seq<Outgoing>)
    requires f.op == TEXT && !f.fin && Sized([f] + fs)
    requires Welcome(c, None, TEXT, false, |f.payload|, f.key) && Remainder(c, |f.payload|, fs)
    ensures var o, text := Parse(c, None, WireOf([f] + fs)), f.payload + Text(fs);
      && ((exists t :: Utf8.WellFormed(text + t)) ==> o == Outcome(Controls(fs) + [Message(TEXT, text)], None))
      && (!(exists t :: Utf8.WellFormed(text + t)) ==> o.error == Some(InvalidUtf8) && o.messages <= Controls(fs))
  {
    hide Parse, Encoded, Utf8.Run, Utf8.WellFormed, ParseHead, Delivers, Remainder, Text, Controls;
    var s := Wire(Encoded(f.op, f.fin, f.payload, f.key));
    var a := Extended(None, f);
    assert ([f] + fs)[1..] == fs;
    assert [] + f.payload == f.payload;
    Utf8.NotRejectedIffExtendable(f.payload + Text(fs));
    TextStep(Assembly(TEXT, [], Utf8.FRESH), f.payload, Text(fs));
    if Rejected(a) {
      RejectedFrameFails(c, None, f, WireOf(fs));
    } else {
      EncodedDelivers(c, None, f);
      RemainderDecides(c, a, fs);
      DeliversThen(c, None, s, [], Some(a), WireOf(fs));
    }
  }

  /** From the beginning of a stream: a frame of one byte, the header of a continuation
      that announces 2^64 - 1 bytes, and what comes behind it, make a message that outgrows
      the maximum. */
  lemma LimitPassedInStream(c: Config, b: byte, key: MaskingKey, more: seq<byte>)
    requires c.isServer && 0 < c.maxMessageSize < TWO_64 - 1 && |more| == c.maxMessageSize
    ensures var s := Wire(Encoded(BINARY, false, [b], Some(key))) + (Reassembly.LongHeader(key) + more);
      var m := Reassembly.UnderAssembly(c, None, s);
      m.Some? && |m.value.payload| == c.maxMessageSize + 1
  {
    hide ParseHead, Encoded, Masked, Reassembly.LongHeader;
    var s := Wire(Encoded(BINARY, false, [b], Some(key)));
    var rest := Reassembly.LongHeader(key) + more;
    EncodedParses(c, None, BINARY, false, [b], Some(key));
    BasicHeaderInverse(BINARY, 1, false, true, false, false, false);
    var a := Partial(None, ParseHead(c, None, s), s);
    assert [] + [b] == [b];
    Reassembly.AssemblyContinues(c, None, s, rest);
    Reassembly.LimitPassed(c, b, key, more);
  }

  /** So it is delivered although it is ill-formed exactly when it ends inside a character
      that could still be completed. */
  lemma DeliveredThoughIllFormed(c: Config, f: Outgoing, fs: seq<Outgoing>)
    requires f.op == TEXT && !f.fin && Sized([f] + fs)
    requires Welcome(c, None, TEXT, false, |f.payload|, f.key) && Remainder(c, |f.payload|, fs)
    ensures var o, text := Parse(c, None, WireOf([f] + fs)), f.payload + Text(fs);
      o.error == None && !Utf8.WellFormed(text) <==> Utf8.Run(Utf8.FRESH, text).state !in {Utf8.ACCEPT, Utf8.REJECT}
  {
    hide Parse, Encoded, Utf8.Run, Utf8.WellFormed, Remainder, Text, Controls;
    var text := f.payload + Text(fs);
    FragmentedTextDelivered(c, f, fs);
    Utf8.NotRejectedIffExtendable(text);
    Utf8.ValidIffWellFormed(text);
  }
}
