// Outgoing frames: prepare_data_frame and prepare_control of hybi13.hpp, and the
// round trip of what they build through the one-shot parser.
module Sender {
  import opened Bytes
  import opened Masking
  import opened Frame
  import opened OneShot
  import Reassembly
  import MaskRoutines
  import Utf8

  /** A frame ready for the wire, or why it was refused. */
  datatype Prepared = Refused(error: Error) | Ready(header: seq<byte>, payload: seq<byte>)

  function Wire(p: Prepared): seq<byte>
    requires p.Ready?
  {
    p.header + p.payload
  }

  /** The bytes of one frame; key is absent when the sender is a server. */
  function Encoded(op: Opcode, fin: bool, payload: seq<byte>, key: Option<MaskingKey>): (p: Prepared)
    requires |payload| < TWO_64
    ensures p.Ready?
  {
    Ready(Header(op, fin, |payload|, key), if key.Some? then Masked(payload, key.value, 0) else payload)
  }

  function KeyFor(isServer: bool, random: MaskingKey): Option<MaskingKey> {
    if isServer then None else Some(random)
  }

  /** What prepare_data_frame leaves in the outgoing message. */
  function DataFrame(isServer: bool, op: Opcode, fin: bool, payload: seq<byte>, random: MaskingKey): Prepared
    requires |payload| < TWO_64
  {
    if IsControl(op) then Refused(InvalidOpcode)
    else if op == TEXT && !Utf8.Valid(payload) then Refused(InvalidPayload)
    else Encoded(op, fin, payload, KeyFor(isServer, random))
  }

  /** What prepare_control leaves in the outgoing message. */
  function ControlFrame(isServer: bool, op: Opcode, payload: seq<byte>, random: MaskingKey): Prepared
    requires |payload| < TWO_64
  {
    if !IsControl(op) then Refused(InvalidOpcode)
    else if |payload| > PAYLOAD_SIZE_BASIC then Refused(ControlTooBig)
    else Encoded(op, true, payload, KeyFor(isServer, random))
  }

  /** masked_copy */
  method MaskedCopy(i: seq<byte>, key: MaskingKey) returns (o: seq<byte>)
    ensures o == Masked(i, key, 0)
  {
    var input := new byte[|i|](j requires 0 <= j < |i| => i[j]);
    var output := new byte[|i|](j => 0);
    assert input[0..0 + |i|] == i;
    MaskRoutines.ByteMask(input, output, 0, |i|, key, 0);
    o := output[..];
    assert output[0..0 + |i|] == o;
  }

  /** prepare_data_frame, permessage-deflate disabled; random is the next value of m_rng. */
  method PrepareDataFrame(isServer: bool, op: Opcode, fin: bool, payload: seq<byte>, random: MaskingKey)
    returns (out: Prepared)
    requires |payload| < TWO_64
    ensures out == DataFrame(isServer, op, fin, payload, random)
  {
    if IsControl(op) { return Refused(InvalidOpcode); }
    if op == TEXT {
      var valid := Utf8.Validate(payload);
      if !valid { return Refused(InvalidPayload); }
    }
    var masked := !isServer;
    var o := payload;
    if masked { o := MaskedCopy(payload, random); }
    var h := MakeBasicHeader(op, |o|, fin, masked, false, false, false);
    if masked {
      out := Ready(PrepareHeader(h, MakeExtendedHeader(|o|, Some(random))), o);
    } else {
      out := Ready(PrepareHeader(h, MakeExtendedHeader(|o|, None)), o);
    }
  }

  /** prepare_control */
  method PrepareControl(isServer: bool, op: Opcode, payload: seq<byte>, random: MaskingKey) returns (out: Prepared)
    requires |payload| < TWO_64
    ensures out == ControlFrame(isServer, op, payload, random)
  {
    if !IsControl(op) { return Refused(InvalidOpcode); }
    if |payload| > PAYLOAD_SIZE_BASIC { return Refused(ControlTooBig); }
    var masked := !isServer;
    var h := MakeBasicHeader(op, |payload|, true, masked, false, false, false);
    if masked {
      var o := MaskedCopy(payload, random);
      out := Ready(PrepareHeader(h, MakeExtendedHeader(|payload|, Some(random))), o);
    } else {
      out := Ready(PrepareHeader(h, MakeExtendedHeader(|payload|, None)), payload);
    }
  }

  // ------------------------------------------------------------- round trips

  /** The receiver at the other end of a sender with the given role and key accepts
      a frame with this header in this situation. */
  ghost predicate Welcome(c: Config, data: Option<Assembly>, op: Opcode, fin: bool, size: nat,
                          key: Option<MaskingKey>) {
    && c.isServer == key.Some?
    && (if IsControl(op) then op in {CLOSE, PING, PONG} && fin && size <= PAYLOAD_SIZE_BASIC
        else op in (if data.None? then {TEXT, BINARY} else {CONTINUATION}))
    && (!IsControl(op) ==> (if data.None? then 0 else |data.value.payload|) + size <= c.maxMessageSize)
  }

  function HeaderOf(op: Opcode, fin: bool, size: uint64, key: Option<MaskingKey>): BasicHeader {
    MakeBasicHeader(op, size, fin, key.Some?, false, false, false)
  }

  /** The parser reads back the header and the payload of an encoded frame. */
  lemma EncodedParses(c: Config, data: Option<Assembly>, op: Opcode, fin: bool, payload: seq<byte>,
                      key: Option<MaskingKey>)
    requires |payload| < TWO_64 && Welcome(c, data, op, fin, |payload|, key)
    ensures var s := Wire(Encoded(op, fin, payload, key));
      var head := ParseHead(c, data, s);
      && head.Good? && head.h == HeaderOf(op, fin, |payload|, key)
      && |s| - head.length == head.size == |payload|
      && Partial(data, head, s) == Advance(Start(data, head.h), payload)
  {
    hide ParseHead, Header, Welcome, HeaderOf, Masked, Advance, Start;
    var s := Wire(Encoded(op, fin, payload, key));
    EncodedHead(c, data, op, fin, |payload|, key, s);
    var head := ParseHead(c, data, s);
    var body := s[head.length..];
    assert body == if key.Some? then Masked(payload, key.value, 0) else payload;
    if key.Some? {
      MaskedTwice(payload, key.value, 0);
    } else {
      MaskedNoKey(payload, 0);
    }
  }

  /** The parser reads back the header of an encoded frame. */
  lemma EncodedHead(c: Config, data: Option<Assembly>, op: Opcode, fin: bool, size: uint64, key: Option<MaskingKey>,
                    s: seq<byte>)
    requires Welcome(c, data, op, fin, size, key) && Header(op, fin, size, key) <= s
    ensures ParseHead(c, data, s) == Good(HeaderOf(op, fin, size, key), if key.Some? then key.value else NO_KEY, size,
                                          |Header(op, fin, size, key)|)
  {
    hide ParseHead, GetPayloadSize, GetMaskingKey, MakeBasicHeader, ValidateExtended, MakeExtendedHeader;
    var h := HeaderOf(op, fin, size, key);
    var e := MakeExtendedHeader(size, key);
    BasicHeaderInverse(op, size, fin, key.Some?, false, false, false);
    HeaderInverse(op, fin, size, key);
    ExtendedPadded(op, fin, size, key);
    HeaderReadBack(c, data, h, e, s);
  }

  lemma ExtendedPadded(op: Opcode, fin: bool, size: uint64, key: Option<MaskingKey>)
    ensures var n := HeaderLength(HeaderOf(op, fin, size, key));
      var e := MakeExtendedHeader(size, key);
      2 <= n <= 14 && e == Padded(e[..n - 2]) && |Header(op, fin, size, key)| == n
  {
    hide MakeBasicHeader, GetPayloadSize, GetMaskingKey, ValidateExtended;
    HeaderInverse(op, fin, size, key);
  }

  /** Reading the bytes of a prepared header gives back both header structures. */
  lemma HeaderReadBack(c: Config, data: Option<Assembly>, h: BasicHeader, e: ExtendedHeader, s: seq<byte>)
    requires PrepareHeader(h, e) <= s
    requires ValidateBasic(h, c.isServer, data.None?) == None
    requires e == Padded(e[..HeaderLength(h) - 2]) && ValidateExtended(h, e) == None
    requires !TooBig(c, data, h, GetPayloadSize(h, e))
    ensures ParseHead(c, data, s) == Good(h, GetMaskingKey(h, e), GetPayloadSize(h, e), HeaderLength(h))
  {
    var n := HeaderLength(h);
    assert s[..n] == PrepareHeader(h, e);
    assert s[0] == h.b0 && s[1] == h.b1;
    assert s[2..n] == s[..n][2..] == e[..n - 2];
  }

  /** The encoding is canonical: a frame whose header passes both validators is, byte for
      byte, the encoding of its opcode, FIN, key and unmasked payload. */
  lemma AcceptedFrameIsEncoded(c: Config, data: Option<Assembly>, s: seq<byte>)
    requires ParseHead(c, data, s).Good?
    requires var head := ParseHead(c, data, s); head.length + head.size <= |s|
    ensures var head := ParseHead(c, data, s);
      var (end, key) := (head.length + head.size, if GetMasked(head.h) then Some(head.key) else None);
      var payload := Masked(s[head.length..end], head.key, 0);
      s[..end] == Wire(Encoded(GetOpcode(head.h), GetFin(head.h), payload, key))
  {
    hide ParseHead, GetPayloadSize, Header, Masked;
    var head := ParseHead(c, data, s);
    var masked := s[head.length..head.length + head.size];
    AcceptedHeader(c, data, s);
    MaskedTwice(masked, head.key, 0);
    if !GetMasked(head.h) {
      MaskedNoKey(masked, 0);
    }
    assert s[..head.length + head.size] == s[..head.length] + masked;
  }

  lemma AcceptedHeader(c: Config, data: Option<Assembly>, s: seq<byte>)
    requires ParseHead(c, data, s).Good?
    ensures var head := ParseHead(c, data, s);
      && s[..head.length] == Header(GetOpcode(head.h), GetFin(head.h), head.size,
          if GetMasked(head.h) then Some(head.key) else None)
      && (!GetMasked(head.h) ==> head.key == NO_KEY)
  {
    hide GetPayloadSize, Header;
    var h := BasicHeader(s[0], s[1]);
    var n := HeaderLength(h);
    var e := Padded(s[2..n]);
    CanonicalHeader(h, e, c.isServer, data.None?);
    assert e[..n - 2] == s[2..n];
    assert s[..n] == [s[0], s[1]] + s[2..n];
  }

  /** A frame as its sender means it. */
  datatype Outgoing = Outgoing(op: Opcode, fin: bool, payload: seq<byte>, key: Option<MaskingKey>)

  predicate Sized(frames: seq<Outgoing>) {
    forall f :: f in frames ==> |f.payload| < TWO_64
  }

  function WireOf(frames: seq<Outgoing>): seq<byte>
    requires Sized(frames)
  {
    if frames == [] then []
    else
      var f := frames[0];
      Wire(Encoded(f.op, f.fin, f.payload, f.key)) + WireOf(frames[1..])
  }

  function Infos(frames: seq<Outgoing>): seq<Reassembly.FrameInfo> {
    if frames == [] then []
    else [Reassembly.FrameInfo(frames[0].op, frames[0].fin, frames[0].payload)] + Infos(frames[1..])
  }

  /** The message that frame f contributes to, after it. */
  function Extended(data: Option<Assembly>, f: Outgoing): Assembly {
    Advance(if IsControl(f.op) || data.None? then Assembly(f.op, [], Utf8.FRESH) else data.value, f.payload)
  }

  function Next(data: Option<Assembly>, f: Outgoing): Option<Assembly> {
    if IsControl(f.op) then data else if f.fin then None else Some(Extended(data, f))
  }

  /** The receiver welcomes every frame, in its place: fragments of one message at a
      time, control frames anywhere, text that stays valid. */
  ghost predicate Legal(c: Config, data: Option<Assembly>, frames: seq<Outgoing>)
    decreases |frames|
  {
    frames == [] ||
    var f := frames[0];
    && Welcome(c, data, f.op, f.fin, |f.payload|, f.key)
    && !Rejected(Extended(data, f))
    && (f.op == TEXT && f.fin ==> Utf8.Valid(f.payload))
    && Legal(c, Next(data, f), frames[1..])
  }

  /** One frame of a legal stream. */
  lemma EncodedDelivers(c: Config, data: Option<Assembly>, f: Outgoing)
    requires |f.payload| < TWO_64 && Welcome(c, data, f.op, f.fin, |f.payload|, f.key)
    requires !Rejected(Extended(data, f)) && (f.op == TEXT && f.fin ==> Utf8.Valid(f.payload))
    ensures Delivers(c, data, Wire(Encoded(f.op, f.fin, f.payload, f.key)),
                     if f.fin then [Deliver(Extended(data, f))] else [], Next(data, f), [])
  {
    hide ParseHead, Encoded, MakeBasicHeader, Utf8.Run;
    var s := Wire(Encoded(f.op, f.fin, f.payload, f.key));
    EncodedParses(c, data, f.op, f.fin, f.payload, f.key);
    BasicHeaderInverse(f.op, |f.payload|, f.fin, f.key.Some?, false, false, false);
    var head := ParseHead(c, data, s);
    assert Partial(data, head, s) == Extended(data, f);
    if f.fin {
      FinalFrame(c, data, s);
    } else {
      FragmentContinues(c, data, s);
      SameFutureDelivers(c, data, s, Next(data, f), []);
    }
  }

  /** The round trip of a whole stream: what a legal sequence of frames puts on the
      wire is read back as the messages those frames spell. */
  lemma {:induction false} StreamRoundTrip(c: Config, data: Option<Assembly>, frames: seq<Outgoing>)
    requires Sized(frames) && Legal(c, data, frames)
    ensures Parse(c, data, WireOf(frames)) ==
      Outcome(Reassembly.Assemble(Reassembly.Open(data), Infos(frames)), None)
    decreases |frames|
  {
    hide ParseHead, Parse, Encoded, Rejected, Welcome, Utf8.Valid, Delivers, Reassembly.Assemble, Infos, Next, Extended;
    if frames == [] {
      NothingFollows(c, data);
      AssembleNothing(data);
    } else {
      var f, rest := frames[0], frames[1..];
      EncodedDelivers(c, data, f);
      StreamRoundTrip(c, Next(data, f), rest);
      WelcomeControl(c, data, f);
      DeliversThen(c, data, Wire(Encoded(f.op, f.fin, f.payload, f.key)),
                   if f.fin then [Deliver(Extended(data, f))] else [], Next(data, f), WireOf(rest));
      AssembleFrame(data, f, rest);
      assert frames == [f] + rest;
    }
  }

  lemma WelcomeControl(c: Config, data: Option<Assembly>, f: Outgoing)
    requires Welcome(c, data, f.op, f.fin, |f.payload|, f.key)
    ensures IsControl(f.op) ==> f.fin
  {
  }

  lemma NothingFollows(c: Config, data: Option<Assembly>)
    ensures Parse(c, data, []) == Outcome([], None)
  {
  }

  lemma DeliversThen(c: Config, b1: Option<Assembly>, s: seq<byte>, ms: seq<Message>, b2: Option<Assembly>,
                     rest: seq<byte>)
    requires Delivers(c, b1, s, ms, b2, [])
    ensures Parse(c, b1, s + rest) == Prepend(ms, Parse(c, b2, rest))
  {
    hide Parse;
    assert [] + rest == rest;
  }

  lemma AssembleNothing(data: Option<Assembly>)
    ensures Reassembly.Assemble(Reassembly.Open(data), Infos([])) == []
  {
  }

  /** One frame of the stream in the joining of fragments. */
  lemma AssembleFrame(data: Option<Assembly>, f: Outgoing, rest: seq<Outgoing>)
    ensures Reassembly.Assemble(Reassembly.Open(data), Infos([f] + rest)) ==
            (if f.fin || IsControl(f.op) then [Deliver(Extended(data, f))] else []) +
            Reassembly.Assemble(Reassembly.Open(Next(data, f)), Infos(rest))
  {
    hide Extended;
    ExtendedMessage(data, f);
    assert ([f] + rest)[1..] == rest;
    assert Infos([f] + rest)[1..] == Infos(rest);
    var ms := Reassembly.Assemble(Reassembly.Open(Next(data, f)), Infos(rest));
    assert [] + ms == ms;
  }

  lemma ExtendedMessage(data: Option<Assembly>, f: Outgoing)
    ensures Deliver(Extended(data, f)) ==
      if IsControl(f.op) || data.None? then Message(f.op, f.payload)
      else Message(data.value.opcode, data.value.payload + f.payload)
  {
    assert [] + f.payload == f.payload;
  }

  lemma ValidIsNotRejected(payload: seq<byte>)
    ensures Utf8.Valid(payload) ==> Utf8.Run(Utf8.FRESH, payload).state != Utf8.REJECT
  {
  }

  /** The round trip of one data message from prepare_data_frame, in either role. */
  lemma DataRoundTrip(c: Config, op: Opcode, payload: seq<byte>, random: MaskingKey)
    requires op in {TEXT, BINARY} && |payload| <= c.maxMessageSize
    ensures var p := DataFrame(!c.isServer, op, true, payload, random);
      if op == TEXT && !Utf8.WellFormed(payload) then p == Refused(InvalidPayload)
      else p.Ready? && Delivers(c, None, Wire(p), [Message(op, payload)], None, [])
  {
    hide Utf8.WellFormed;
    Utf8.ValidIffWellFormed(payload);
    hide Encoded, Utf8.Run, Delivers;
    if op == BINARY || Utf8.Valid(payload) {
      var f := Outgoing(op, true, payload, KeyFor(!c.isServer, random));
      ExtendedMessage(None, f);
      ValidIsNotRejected(payload);
      EncodedDelivers(c, None, f);
    }
  }

  /** The round trip of a control frame from prepare_control, whatever message is
      being assembled meanwhile. */
  lemma ControlRoundTrip(c: Config, data: Option<Assembly>, op: Opcode, payload: seq<byte>, random: MaskingKey)
    requires op in {CLOSE, PING, PONG} && |payload| < TWO_64
    ensures var p := ControlFrame(!c.isServer, op, payload, random);
      if |payload| > PAYLOAD_SIZE_BASIC then p == Refused(ControlTooBig)
      else p.Ready? && Delivers(c, data, Wire(p), [Message(op, payload)], data, [])
  {
    if |payload| <= PAYLOAD_SIZE_BASIC {
      var f := Outgoing(op, true, payload, KeyFor(!c.isServer, random));
      ExtendedMessage(data, f);
      EncodedDelivers(c, data, f);
    }
  }

  /** A text message that ends in the middle of a character is delivered all the same
      when its last frame is a continuation: the final check looks only at that frame. */
  lemma FragmentedTextMayEndMidCharacter(key: MaskingKey)
    ensures var c := Config(true, 125);
      var frames := [Outgoing(TEXT, false, [0xC2], Some(key)), Outgoing(CONTINUATION, true, [], Some(key))];
      && Parse(c, None, WireOf(frames)) == Outcome([Message(TEXT, [0xC2])], None)
      && !Utf8.WellFormed([0xC2])
  {
    var c := Config(true, 125);
    var f, g := Outgoing(TEXT, false, [0xC2], Some(key)), Outgoing(CONTINUATION, true, [], Some(key));
    var a := Assembly(TEXT, [0xC2], Utf8.Step(Utf8.FRESH, 0xC2));
    LoneLeadByte();
    Utf8.ValidIffWellFormed([0xC2]);
    ExtendedMessage(None, f);
    ExtendedMessage(Some(a), g);
    hide Utf8.Run, Utf8.Step, Utf8.WellFormed, Parse, Advance, WireOf;
    AdvanceOnce();
    AdvanceNothing(a);
    assert [f, g][1..] == [g] && [g][1..] == [];
    assert Legal(c, Some(a), [g]);
    StreamRoundTrip(c, None, [f, g]);
    TwoFragments(f, g);
  }

  lemma TwoFragments(f: Outgoing, g: Outgoing)
    requires !IsControl(f.op) && !IsControl(g.op) && !f.fin && g.fin && g.payload == []
    ensures Reassembly.Assemble(None, Infos([f, g])) == [Message(f.op, f.payload)]
  {
    var x := Reassembly.FrameInfo(f.op, f.fin, f.payload);
    var y := Reassembly.FrameInfo(g.op, g.fin, g.payload);
    assert Infos([g]) == [y] && Infos([f, g]) == [x, y];
    assert [x, y][1..] == [y] && [y][1..] == [];
    assert f.payload + g.payload == f.payload;
    var m := Message(f.op, f.payload);
    assert Reassembly.Assemble(Some(m), [y]) == [m];
  }

  lemma LoneLeadByte()
    ensures Utf8.Step(Utf8.FRESH, 0xC2).state == 2
    ensures Utf8.Run(Utf8.FRESH, [0xC2]) == Utf8.Step(Utf8.FRESH, 0xC2)
  {
    Utf8.FirstByte(0xC2);
    Utf8.RunOne(Utf8.FRESH, [0xC2]);
  }

  lemma AdvanceOnce()
    ensures Advance(Assembly(TEXT, [], Utf8.FRESH), [0xC2]) == Assembly(TEXT, [0xC2], Utf8.Step(Utf8.FRESH, 0xC2))
  {
    LoneLeadByte();
  }

  lemma AdvanceNothing(a: Assembly)
    ensures Advance(a, []) == a
  {
    assert a.payload + [] == a.payload;
  }
}
