// Frames by their bytes (sections 5.2, 5.5 and 11.8 of RFC 6455): the numbers that opcodes,
// flags and lengths have on the wire, and what is made of them.
module WireBytes {
  import opened Bytes
  import opened Masking
  import opened Frame
  import opened OneShot
  import opened Sender
  import Reassembly
  import Utf8

  // ------------------------------------------------------------- headers

  /** The length of a payload, behind the mask bit m: one byte, three, or nine. */
  function LengthBytes(n: uint64, m: byte): (s: seq<byte>)
    requires m in {0, 0x80}
  {
    if n <= 125 then [m + n]
    else if n <= 65535 then [m + 126, n / 0x100, n % 0x100]
    else
      [m + 127,
       n / 0x100_0000_0000_0000, n / 0x1_0000_0000_0000 % 0x100, n / 0x100_0000_0000 % 0x100, n / 0x1_0000_0000 % 0x100,
       n / 0x100_0000 % 0x100, n / 0x1_0000 % 0x100, n / 0x100 % 0x100, n % 0x100]
  }

  /** A frame with this first byte; masked if there is a key. */
  function FrameBytes(first: byte, payload: seq<byte>, key: Option<MaskingKey>): seq<byte>
    requires |payload| < TWO_64
  {
    match key
    case None => [first] + LengthBytes(|payload|, 0) + payload
    case Some(k) => [first] + LengthBytes(|payload|, 0x80) + k + Masked(payload, k, 0)
  }

  /** The header of every frame, in numbers. */
  lemma HeaderBytes(op: Opcode, fin: bool, size: uint64, key: Option<MaskingKey>)
    ensures Header(op, fin, size, key) ==
      [op + if fin then 0x80 else 0] + LengthBytes(size, if key.Some? then 0x80 else 0) +
      if key.Some? then key.value else []
  {
    hide ToBigEndian, GetMaskingKey, GetPayloadSize;
    var h := MakeBasicHeader(op, size, fin, key.Some?, false, false, false);
    var k: seq<byte> := if key.Some? then key.value else [];
    BasicHeaderInverse(op, size, fin, key.Some?, false, false, false);
    HeaderInverse(op, fin, size, key);
    SizeInBytes(size);
    var e := MakeExtendedHeader(size, key);
    assert e[..HeaderLength(h) - 2] == SizeBytes(size) + k;
  }

  lemma SizeInBytes(size: uint64)
    ensures forall m: byte :: m in {0, 0x80} ==> LengthBytes(size, m) == [m + BasicValue(size)] + SizeBytes(size)
  {
    hide ToBigEndian;
    if 125 < size <= 65535 {
      TwoBytes(size);
    } else if size > 65535 {
      EightBytes(size);
    }
  }

  /** What the sender makes of a message, in numbers. */
  lemma EncodedBytes(op: Opcode, fin: bool, payload: seq<byte>, key: Option<MaskingKey>)
    requires |payload| < TWO_64
    ensures Wire(Encoded(op, fin, payload, key)) == FrameBytes(op + if fin then 0x80 else 0, payload, key)
  {
    hide Header, LengthBytes, Masked;
    HeaderBytes(op, fin, |payload|, key);
  }

  // --------------------------------------------------------- what is read

  /** 0x82 is a binary message. */
  lemma BinaryIsRead(c: Config, payload: seq<byte>, key: Option<MaskingKey>)
    requires c.isServer == key.Some? && |payload| <= c.maxMessageSize
    ensures Parse(c, None, FrameBytes(0x82, payload, key)) == Outcome([Message(2, payload)], None)
  {
    hide Encoded, FrameBytes, Delivers, Parse;
    EncodedBytes(2, true, payload, key);
    OneMessage(c, Outgoing(2, true, payload, key));
  }

  /** 0x81 is a text message, if it is well-formed. */
  lemma TextIsRead(c: Config, payload: seq<byte>, key: Option<MaskingKey>)
    requires c.isServer == key.Some? && |payload| <= c.maxMessageSize
    ensures Parse(c, None, FrameBytes(0x81, payload, key)) ==
            if Utf8.WellFormed(payload) then Outcome([Message(1, payload)], None) else Outcome([], Some(InvalidUtf8))
  {
    hide Encoded, FrameBytes, Delivers, Parse, Utf8.WellFormed, ParseHead, Masked;
    EncodedBytes(1, true, payload, key);
    Utf8.ValidIffWellFormed(payload);
    if Utf8.WellFormed(payload) {
      ValidIsNotRejected(payload);
      OneMessage(c, Outgoing(1, true, payload, key));
    } else {
      TextRefused(c, payload, key);
    }
  }

  lemma OneMessage(c: Config, f: Outgoing)
    requires f.fin && |f.payload| < TWO_64 && Welcome(c, None, f.op, true, |f.payload|, f.key)
    requires f.op == TEXT ==> Utf8.Valid(f.payload)
    ensures Parse(c, None, Wire(Encoded(f.op, true, f.payload, f.key))) == Outcome([Message(f.op, f.payload)], None)
  {
    hide Encoded, Delivers, Parse, Utf8.Run;
    ValidIsNotRejected(f.payload);
    EncodedDelivers(c, None, f);
    ExtendedMessage(None, f);
    var s := Wire(Encoded(f.op, true, f.payload, f.key));
    DeliversThen(c, None, s, [Message(f.op, f.payload)], None, []);
    NothingFollows(c, None);
    assert s + [] == s;
  }

  lemma TextRefused(c: Config, payload: seq<byte>, key: Option<MaskingKey>)
    requires c.isServer == key.Some? && |payload| <= c.maxMessageSize && !Utf8.Valid(payload)
    ensures Parse(c, None, Wire(Encoded(TEXT, true, payload, key))) == Failed(InvalidUtf8)
  {
    hide Encoded, ParseHead, Utf8.Run, MakeBasicHeader;
    var s := Wire(Encoded(TEXT, true, payload, key));
    EncodedParses(c, None, TEXT, true, payload, key);
    BasicHeaderInverse(TEXT, |payload|, true, key.Some?, false, false, false);
    var head := ParseHead(c, None, s);
    assert s[head.length..head.length + head.size] == s[head.length..];
    Reassembly.CompleteText(c, s);
  }

  /** 0x88, 0x89 and 0x8A are close, ping and pong, whatever message is being assembled. */
  lemma ControlIsRead(c: Config, op: nat, payload: seq<byte>, key: Option<MaskingKey>)
    requires c.isServer == key.Some? && |payload| <= 125 && op in {8, 9, 10}
    ensures Parse(c, None, FrameBytes(0x80 + op, payload, key)) == Outcome([Message(op, payload)], None)
  {
    hide Encoded, FrameBytes, Delivers, Parse;
    EncodedBytes(op, true, payload, key);
    OneMessage(c, Outgoing(op, true, payload, key));
  }

  /** 0x02 begins a binary message and 0x80 ends it; a control frame may come between. */
  lemma FragmentsAreRead(c: Config, a: seq<byte>, b: seq<byte>, ping: seq<byte>, k1: Option<MaskingKey>,
                         k2: Option<MaskingKey>, k3: Option<MaskingKey>)
    requires c.isServer == k1.Some? == k2.Some? == k3.Some? && |a| + |b| <= c.maxMessageSize && |ping| <= 125
    ensures Parse(c, None, FrameBytes(0x02, a, k1) + (FrameBytes(0x89, ping, k2) + FrameBytes(0x80, b, k3))) ==
            Outcome([Message(9, ping), Message(2, a + b)], None)
  {
    hide Encoded, FrameBytes, Parse, Utf8.Run;
    var f, g, h := Outgoing(2, false, a, k1), Outgoing(9, true, ping, k2), Outgoing(0, true, b, k3);
    EncodedBytes(2, false, a, k1);
    EncodedBytes(9, true, ping, k2);
    EncodedBytes(0, true, b, k3);
    ThreeOnWire(f, g, h);
    ThreeLegal(c, f, g, h);
    StreamRoundTrip(c, None, [f, g, h]);
    ThreeAssembled(f, g, h);
  }

  lemma ThreeOnWire(f: Outgoing, g: Outgoing, h: Outgoing)
    requires Sized([f, g, h])
    ensures WireOf([f, g, h]) == Wire(Encoded(f.op, f.fin, f.payload, f.key)) +
            (Wire(Encoded(g.op, g.fin, g.payload, g.key)) + Wire(Encoded(h.op, h.fin, h.payload, h.key)))
  {
    hide Encoded;
    assert [f, g, h][1..] == [g, h] && [g, h][1..] == [h] && [h][1..] == [];
    assert WireOf([h]) == Wire(Encoded(h.op, h.fin, h.payload, h.key)) + [];
  }

  lemma ThreeLegal(c: Config, f: Outgoing, g: Outgoing, h: Outgoing)
    requires c.isServer == f.key.Some? == g.key.Some? == h.key.Some?
    requires f.op == 2 && !f.fin && g.op == 9 && g.fin && h.op == 0 && h.fin
    requires |f.payload| + |h.payload| <= c.maxMessageSize && |g.payload| <= 125
    ensures Sized([f, g, h]) && Legal(c, None, [f, g, h])
  {
    hide Utf8.Run;
    assert [f, g, h][1..] == [g, h] && [g, h][1..] == [h] && [h][1..] == [];
    var a := Some(Extended(None, f));
    assert [] + f.payload == f.payload;
    assert Next(None, f) == a && Next(a, g) == a && |a.value.payload| == |f.payload|;
    assert Legal(c, Next(a, h), []);
    assert Legal(c, a, [h]);
    assert Legal(c, a, [g, h]);
  }

  lemma ThreeAssembled(f: Outgoing, g: Outgoing, h: Outgoing)
    requires f.op == 2 && !f.fin && g.op == 9 && g.fin && h.op == 0 && h.fin
    ensures Reassembly.Assemble(Reassembly.Open(None), Infos([f, g, h])) ==
            [Message(9, g.payload), Message(2, f.payload + h.payload)]
  {
    assert [f, g, h][1..] == [g, h] && [g, h][1..] == [h] && [h][1..] == [];
    var i, j, k := Reassembly.FrameInfo(2, false, f.payload), Reassembly.FrameInfo(9, true, g.payload),
      Reassembly.FrameInfo(0, true, h.payload);
    assert Infos([]) == [] && Infos([h]) == [k] + [];
    assert Infos([g, h]) == [j] + Infos([h]) && Infos([f, g, h]) == [i] + Infos([g, h]);
    assert Infos([f, g, h]) == [i, j, k];
    assert [i, j, k][1..] == [j, k] && [j, k][1..] == [k] && [k][1..] == [];
    var open := Some(Message(2, f.payload));
    assert Reassembly.Assemble(None, []) == [];
    assert Reassembly.Assemble(open, [k]) == [Message(2, f.payload + h.payload)] + [];
    assert Reassembly.Assemble(open, [j, k]) == [Message(9, g.payload)] + Reassembly.Assemble(open, [k]);
  }

  // The short forms, as a server reads them.

  lemma ShortMasked(first: byte, payload: seq<byte>, key: MaskingKey)
    requires |payload| <= 125
    ensures FrameBytes(first, payload, Some(key)) == [first, 0x80 + |payload|] + (key + Masked(payload, key, 0))
  {
    hide Masked;
  }

  lemma ShortBinaryIsRead(max: uint64, payload: seq<byte>, key: MaskingKey)
    requires |payload| <= 125 && |payload| <= max
    ensures Parse(Config(true, max), None, [0x82, 0x80 + |payload|] + (key + Masked(payload, key, 0))) ==
            Outcome([Message(2, payload)], None)
  {
    hide Parse, Masked, FrameBytes;
    ShortMasked(0x82, payload, key);
    BinaryIsRead(Config(true, max), payload, Some(key));
  }

  lemma ShortTextIsRead(max: uint64, payload: seq<byte>, key: MaskingKey)
    requires |payload| <= 125 && |payload| <= max
    ensures Parse(Config(true, max), None, [0x81, 0x80 + |payload|] + (key + Masked(payload, key, 0))) ==
            if Utf8.WellFormed(payload) then Outcome([Message(1, payload)], None) else Outcome([], Some(InvalidUtf8))
  {
    hide Parse, Masked, FrameBytes, Utf8.WellFormed;
    ShortMasked(0x81, payload, key);
    TextIsRead(Config(true, max), payload, Some(key));
  }

  lemma ShortControlIsRead(max: uint64, op: nat, payload: seq<byte>, key: MaskingKey)
    requires |payload| <= 125 && op in {8, 9, 10}
    ensures Parse(Config(true, max), None, [0x80 + op, 0x80 + |payload|] + (key + Masked(payload, key, 0))) ==
            Outcome([Message(op, payload)], None)
  {
    hide Parse, Masked, FrameBytes;
    ShortMasked(0x80 + op, payload, key);
    ControlIsRead(Config(true, max), op, payload, Some(key));
  }

  // ------------------------------------------------------ what is prepared

  /** prepare_data_frame in numbers: 2 is binary. */
  lemma BinaryPrepared(isServer: bool, fin: bool, payload: seq<byte>, random: MaskingKey)
    requires |payload| < TWO_64
    ensures var p := DataFrame(isServer, 2, fin, payload, random);
      p.Ready? && Wire(p) == FrameBytes(if fin then 0x82 else 0x02, payload, KeyFor(isServer, random))
  {
    hide Encoded, FrameBytes;
    EncodedBytes(2, fin, payload, KeyFor(isServer, random));
  }

  /** 1 is text, refused exactly when it is not well-formed. */
  lemma TextPrepared(isServer: bool, fin: bool, payload: seq<byte>, random: MaskingKey)
    requires |payload| < TWO_64
    ensures var p := DataFrame(isServer, 1, fin, payload, random);
      if Utf8.WellFormed(payload) then
        p.Ready? && Wire(p) == FrameBytes(if fin then 0x81 else 0x01, payload, KeyFor(isServer, random))
      else p == Refused(InvalidPayload)
  {
    hide Encoded, FrameBytes, Utf8.WellFormed, Utf8.Run;
    Utf8.ValidIffWellFormed(payload);
    EncodedBytes(1, fin, payload, KeyFor(isServer, random));
  }

  /** prepare_control in numbers. */
  lemma PreparedControlBytes(isServer: bool, op: Opcode, payload: seq<byte>, random: MaskingKey)
    requires |payload| < TWO_64
    ensures var p := ControlFrame(isServer, op, payload, random);
      && (p.Ready? <==> op >= 8 && |payload| <= 125)
      && (p.Ready? ==> Wire(p) == FrameBytes(0x80 + op, payload, KeyFor(isServer, random)))
      && (p.Refused? ==> p.error == if op < 8 then InvalidOpcode else ControlTooBig)
    ensures op >= 8 ==> DataFrame(isServer, op, true, payload, random) == Refused(InvalidOpcode)
  {
    hide Encoded, FrameBytes;
    EncodedBytes(op, true, payload, KeyFor(isServer, random));
  }

  // The short forms, as a server sends them.

  lemma ShortPlain(first: byte, payload: seq<byte>)
    requires |payload| <= 125
    ensures FrameBytes(first, payload, None) == [first, |payload|] + payload
  {
  }

  lemma ShortBinaryPrepared(payload: seq<byte>, random: MaskingKey)
    requires |payload| <= 125
    ensures var p := DataFrame(true, 2, true, payload, random); p.Ready? && Wire(p) == [0x82, |payload|] + payload
  {
    hide DataFrame, FrameBytes;
    BinaryPrepared(true, true, payload, random);
    ShortPlain(0x82, payload);
  }

  lemma ShortTextPrepared(payload: seq<byte>, random: MaskingKey)
    requires |payload| <= 125
    ensures var p := DataFrame(true, 1, true, payload, random);
      if Utf8.WellFormed(payload) then p.Ready? && Wire(p) == [0x81, |payload|] + payload
      else p == Refused(InvalidPayload)
  {
    hide DataFrame, FrameBytes, Utf8.WellFormed;
    TextPrepared(true, true, payload, random);
    ShortPlain(0x81, payload);
  }

  lemma ShortControlPrepared(op: nat, payload: seq<byte>, random: MaskingKey)
    requires |payload| <= 125 && op in {8, 9, 10}
    ensures var p := ControlFrame(true, op, payload, random); p.Ready? && Wire(p) == [0x80 + op, |payload|] + payload
  {
    hide ControlFrame, FrameBytes;
    PreparedControlBytes(true, op, payload, random);
    ShortPlain(0x80 + op, payload);
  }

  // -------------------------------------------------- heads, by their bytes

  /** What is wrong with the two first bytes of a frame, in the order of the checks. */
  function BasicError(b0: byte, b1: byte, isServer: bool, inMessage: bool): Option<Error> {
    if b0 % 16 >= 8 && b1 % 128 > 125 then Some(ControlTooBig)
    else if b0 / 16 % 8 != 0 then Some(InvalidRsvBit)
    else if b0 % 16 in {3, 4, 5, 6, 7, 11, 12, 13, 14, 15} then Some(InvalidOpcode)
    else if b0 % 16 >= 8 && b0 < 128 then Some(FragmentedControl)
    else if if inMessage then b0 % 16 in {1, 2} else b0 % 16 == 0 then Some(InvalidContinuation)
    else if isServer && b1 < 128 then Some(MaskingRequired)
    else if !isServer && b1 >= 128 then Some(MaskingForbidden)
    else None
  }

  /** The number of bytes of a head, given its second. */
  function HeadLength(b1: byte): (n: nat)
    ensures 2 <= n <= 14
  {
    2 + (if b1 % 128 == 126 then 2 else if b1 % 128 == 127 then 8 else 0) + if b1 >= 128 then 4 else 0
  }

  /** The length that a head gives. */
  function HeadSize(s: seq<byte>): nat
    requires |s| >= 2 && |s| >= HeadLength(s[1])
  {
    if s[1] % 128 == 126 then s[2] as int * 0x100 + s[3]
    else if s[1] % 128 == 127 then
      s[2] as int * 0x100_0000_0000_0000 + s[3] as int * 0x1_0000_0000_0000 + s[4] as int * 0x100_0000_0000 +
      s[5] as int * 0x1_0000_0000 + s[6] as int * 0x100_0000 + s[7] as int * 0x1_0000 + s[8] as int * 0x100 + s[9]
    else s[1] % 128
  }

  /** The whole decision about a head: which error, how long, and how much it announces. */
  lemma HeadByBytes(c: Config, data: Option<Assembly>, s: seq<byte>)
    requires |s| >= 2
    ensures var (head, basic) := (ParseHead(c, data, s), BasicError(s[0], s[1], c.isServer, data.Some?));
      var open := if data.Some? then |data.value.payload| else 0;
      if basic.Some? then head == Bad(basic.value)
      else if |s| < HeadLength(s[1]) then head == Incomplete
      else
        var (n, size) := (HeadLength(s[1]), HeadSize(s));
        if (s[1] % 128 == 126 && size <= 125) || (s[1] % 128 == 127 && size <= 65535) then
          head == Bad(NonMinimalEncoding)
        else if s[0] % 16 < 8 && (open + size) % 0x1_0000_0000_0000_0000 > c.maxMessageSize then
          head == Bad(MessageTooBig)
        else
          && head.Good? && head.size == size && head.length == n
          && head.key == if s[1] >= 128 then s[n - 4..n] else [0, 0, 0, 0]
  {
    hide GetPayloadSize, GetMaskingKey, BigEndian, ValidateBasic, BasicError, HeadLength, HeadSize, HeaderLength,
      ValidateExtended, TooBig, GetBasicSize, GetOpcode, Frame.Padded;
    BasicErrorIs(s[0], s[1], c.isServer, data.Some?);
    HeadLengthIs(s[0], s[1]);
    if |s| >= HeadLength(s[1]) {
      HeadSizeIs(s);
      HeadKeyIs(s);
      HeadChecksAre(c, data, s);
    }
  }

  lemma HeadChecksAre(c: Config, data: Option<Assembly>, s: seq<byte>)
    requires |s| >= 2 && |s| >= HeadLength(s[1])
    ensures HeaderLength(BasicHeader(s[0], s[1])) == HeadLength(s[1])
    ensures var (h, e) := (BasicHeader(s[0], s[1]), Frame.Padded(s[2..HeadLength(s[1])]));
      var (open, size) := (if data.Some? then |data.value.payload| else 0, HeadSize(s));
      && ValidateExtended(h, e) == (if (s[1] % 128 == 126 && size <= 125) || (s[1] % 128 == 127 && size <= 65535) then
                                      Some(NonMinimalEncoding) else None)
      && (TooBig(c, data, h, size) <==>
          s[0] % 16 < 8 && (open + size) % 0x1_0000_0000_0000_0000 > c.maxMessageSize)
  {
    hide GetPayloadSize, BigEndian, HeadLength, HeadSize, HeaderLength, GetBasicSize, GetOpcode, Frame.Padded;
    HeadLengthIs(s[0], s[1]);
    HeadSizeIs(s);
  }

  lemma BasicErrorIs(b0: byte, b1: byte, isServer: bool, inMessage: bool)
    ensures ValidateBasic(BasicHeader(b0, b1), isServer, !inMessage) == BasicError(b0, b1, isServer, inMessage)
  {
  }

  lemma HeadLengthIs(b0: byte, b1: byte)
    ensures HeaderLength(BasicHeader(b0, b1)) == HeadLength(b1)
    ensures GetBasicSize(BasicHeader(b0, b1)) == b1 % 128 && GetOpcode(BasicHeader(b0, b1)) == b0 % 16
  {
  }

  lemma HeadSizeIs(s: seq<byte>)
    requires |s| >= 2 && |s| >= HeadLength(s[1])
    ensures HeaderLength(BasicHeader(s[0], s[1])) == HeadLength(s[1])
    ensures GetPayloadSize(BasicHeader(s[0], s[1]), Frame.Padded(s[2..HeadLength(s[1])])) == HeadSize(s)
  {
    hide BigEndian;
    HeadLengthIs(s[0], s[1]);
    var e := Frame.Padded(s[2..HeadLength(s[1])]);
    if s[1] % 128 == 126 {
      assert e[..2] == [s[2], s[3]];
      TwoValue(s[2], s[3]);
    } else if s[1] % 128 == 127 {
      assert e[..8] == s[2..10];
      EightValue(s[2..10]);
    }
  }

  lemma HeadKeyIs(s: seq<byte>)
    requires |s| >= 2 && |s| >= HeadLength(s[1])
    ensures HeaderLength(BasicHeader(s[0], s[1])) == HeadLength(s[1])
    ensures var n := HeadLength(s[1]);
      GetMaskingKey(BasicHeader(s[0], s[1]), Frame.Padded(s[2..n])) == if s[1] >= 128 then s[n - 4..n] else [0, 0, 0, 0]
  {
    HeadLengthIs(s[0], s[1]);
  }

  lemma BigEndianStep(s: seq<byte>, b: byte)
    ensures BigEndian(s + [b]) == 0x100 * BigEndian(s) + b
  {
    assert (s + [b])[..|s|] == s;
  }

  lemma TwoValue(a: byte, b: byte)
    ensures BigEndian([a, b]) == a as int * 0x100 + b
  {
    hide BigEndian;
    BigEndianNothing();
    BigEndianStep([], a);
    BigEndianStep([a], b);
    assert [] + [a] == [a] && [a] + [b] == [a, b];
  }

  lemma BigEndianNothing()
    ensures BigEndian([]) == 0
  {
  }

  lemma EightValue(s: seq<byte>)
    requires |s| == 8
    ensures BigEndian(s) ==
      s[0] as int * 0x100_0000_0000_0000 + s[1] as int * 0x1_0000_0000_0000 + s[2] as int * 0x100_0000_0000 +
      s[3] as int * 0x1_0000_0000 + s[4] as int * 0x100_0000 + s[5] as int * 0x1_0000 + s[6] as int * 0x100 + s[7]
  {
    hide BigEndian;
    TwoValue(s[0], s[1]);
    assert s[..2] == [s[0], s[1]] && s[..8] == s;
    forall i | 2 <= i < 8 ensures BigEndian(s[..i + 1]) == 0x100 * BigEndian(s[..i]) + s[i] {
      BigEndianStep(s[..i], s[i]);
      assert s[..i] + [s[i]] == s[..i + 1];
    }
    assert BigEndian(s[..3]) == 0x100 * BigEndian(s[..2]) + s[2];
    assert BigEndian(s[..4]) == 0x100 * BigEndian(s[..3]) + s[3];
    assert BigEndian(s[..5]) == 0x100 * BigEndian(s[..4]) + s[4];
    assert BigEndian(s[..6]) == 0x100 * BigEndian(s[..5]) + s[5];
    assert BigEndian(s[..7]) == 0x100 * BigEndian(s[..6]) + s[6];
    assert BigEndian(s[..8]) == 0x100 * BigEndian(s[..7]) + s[7];
  }
}
