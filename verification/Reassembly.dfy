// Fragmentation (section 5.4 of RFC 6455): what the delivered messages are in
// terms of the frames of the stream.
module Reassembly {
  import opened Bytes
  import opened Masking
  import opened Frame
  import opened OneShot
  import Utf8

  /** A frame with its payload unmasked. */
  datatype FrameInfo = FrameInfo(opcode: Opcode, fin: bool, payload: seq<byte>)

  /** The header of the frame s begins with, unchecked. */
  function RawHead(s: seq<byte>): (r: Head)
    ensures !r.Bad? && (r.Good? ==> 2 <= r.length <= |s|)
  {
    if |s| < 2 then Incomplete
    else
      var h := BasicHeader(s[0], s[1]);
      if |s| < HeaderLength(h) then Incomplete
      else
        var e := Padded(s[2..HeaderLength(h)]);
        Good(h, GetMaskingKey(h, e), GetPayloadSize(h, e), HeaderLength(h))
  }

  function Info(head: Head, body: seq<byte>): FrameInfo
    requires head.Good?
  {
    FrameInfo(GetOpcode(head.h), GetFin(head.h), Masked(body, head.key, 0))
  }

  /** The complete frames of a stream, by their lengths alone. */
  function RawFrames(s: seq<byte>): seq<FrameInfo>
    decreases |s|
  {
    var head := RawHead(s);
    if !head.Good? || |s| < head.length + head.size then []
    else
      var end := head.length + head.size;
      [Info(head, s[head.length..end])] + RawFrames(s[end..])
  }

  /** Joins fragments: control frames are messages of their own wherever they come,
      data frames are appended until one has FIN. */
  function Assemble(open: Option<Message>, frames: seq<FrameInfo>): seq<Message>
    decreases |frames|
  {
    if frames == [] then []
    else
      var f := frames[0];
      if IsControl(f.opcode) then [Message(f.opcode, f.payload)] + Assemble(open, frames[1..])
      else
        var m := if open.None? then Message(f.opcode, f.payload)
                 else Message(open.value.opcode, open.value.payload + f.payload);
        if f.fin then [m] + Assemble(None, frames[1..]) else Assemble(Some(m), frames[1..])
  }

  function Open(data: Option<Assembly>): Option<Message> {
    if data.None? then None else Some(Deliver(data.value))
  }

  /** The checks do not change what the header says. */
  lemma CheckedHead(c: Config, data: Option<Assembly>, s: seq<byte>)
    ensures ParseHead(c, data, s).Good? ==> RawHead(s) == ParseHead(c, data, s)
    ensures ParseHead(c, data, s).Incomplete? ==> RawHead(s) == Incomplete
  {
    hide GetPayloadSize, GetMaskingKey, ValidateBasic, ValidateExtended, TooBig, HeaderLength;
  }

  /** The message under assembly and the bytes left over after the first k frames. */
  function After(data: Option<Assembly>, s: seq<byte>, k: nat): (Option<Assembly>, seq<byte>)
    decreases k
  {
    var head := RawHead(s);
    if k == 0 || !head.Good? || |s| < head.length + head.size then (data, s)
    else
      var end := head.length + head.size;
      var a := Advance(Start(data, head.h), Masked(s[head.length..end], head.key, 0));
      After(if GetFin(head.h) then AfterFinal(data, head.h) else Some(a), s[end..], k - 1)
  }

  /** The frame s begins with fails a check: that of its header; or its text is invalid,
      perhaps before the frame is complete; or its text ends inside a character. */
  predicate FailsHere(c: Config, data: Option<Assembly>, s: seq<byte>, e: Error) {
    match ParseHead(c, data, s)
    case Incomplete => false
    case Bad(error) => e == error
    case Good(h, key, size, length) =>
      var n := Min(size, |s| - length);
      var a := Advance(Start(data, h), Masked(s[length..length + n], key, 0));
      e == InvalidUtf8 && (Rejected(a) || (n == size && GetFin(h) && EndsMidCharacter(h, a)))
  }

  /** How many frames pass every check. */
  function FramesRead(c: Config, data: Option<Assembly>, s: seq<byte>): nat
    decreases |s|
  {
    match ParseHead(c, data, s)
    case Incomplete => 0
    case Bad(_) => 0
    case Good(h, key, size, length) =>
      var n := Min(size, |s| - length);
      var a := Advance(Start(data, h), Masked(s[length..length + n], key, 0));
      if n < size || Rejected(a) || (GetFin(h) && EndsMidCharacter(h, a)) then 0
      else 1 + FramesRead(c, if GetFin(h) then AfterFinal(data, h) else Some(a), s[length + n..])
  }

  /** Reassembly: the messages delivered are the frames that pass, with their fragments
      joined; without an error those are all the complete frames of the stream. */
  lemma {:induction false} DeliversAssembledFrames(c: Config, data: Option<Assembly>, s: seq<byte>)
    requires Sound(data)
    ensures FramesRead(c, data, s) <= |RawFrames(s)|
    ensures Parse(c, data, s).messages == Assemble(Open(data), RawFrames(s)[..FramesRead(c, data, s)])
    ensures Parse(c, data, s).error == None ==> FramesRead(c, data, s) == |RawFrames(s)|
    decreases |s|
  {
    hide ParseHead, RawHead, Advance, Masked, Rejected, GetOpcode, GetFin, EndsMidCharacter, Info, Parse, FramesRead,
      RawFrames, Assemble;
    NextFrame(c, data, s);
    if FramesRead(c, data, s) > 0 {
      var head := ParseHead(c, data, s);
      var end := head.length + head.size;
      var body := s[head.length..end];
      var a := Advance(Start(data, head.h), Masked(body, head.key, 0));
      var next, rest := if GetFin(head.h) then AfterFinal(data, head.h) else Some(a), s[end..];
      NextSound(c, data, s);
      DeliversAssembledFrames(c, next, rest);
      AssembleStep(c, data, s, RawFrames(rest)[..FramesRead(c, next, rest)]);
      TakeCons(Info(head, body), RawFrames(rest), FramesRead(c, next, rest));
    }
  }

  /** One frame that passes: how the parser, the count and the frames go on behind it. */
  lemma NextFrame(c: Config, data: Option<Assembly>, s: seq<byte>)
    ensures var head := ParseHead(c, data, s);
      if FramesRead(c, data, s) == 0 then
        && Parse(c, data, s).messages == [] && Assemble(Open(data), []) == []
        && (Parse(c, data, s).error == None ==> RawFrames(s) == [])
      else
        && head.Good? && head.length + head.size <= |s|
        && var body := s[head.length..head.length + head.size];
           var a := Advance(Start(data, head.h), Masked(body, head.key, 0));
           var next := if GetFin(head.h) then AfterFinal(data, head.h) else Some(a);
           var rest := s[head.length + head.size..];
           && !Rejected(a) && FramesRead(c, data, s) == 1 + FramesRead(c, next, rest)
           && RawFrames(s) == [Info(head, body)] + RawFrames(rest)
           && Parse(c, data, s) == Prepend(if GetFin(head.h) then [Deliver(a)] else [], Parse(c, next, rest))
  {
    hide ParseHead, RawHead, Advance, Masked, Rejected, GetOpcode, GetFin, EndsMidCharacter, Info;
    CheckedHead(c, data, s);
    var head := ParseHead(c, data, s);
    if head.Good? && FramesRead(c, data, s) > 0 && !GetFin(head.h) {
      var a := Advance(Start(data, head.h), Masked(s[head.length..head.length + head.size], head.key, 0));
      var o := Parse(c, Some(a), s[head.length + head.size..]);
      assert [] + o.messages == o.messages;
    }
  }

  lemma NextSound(c: Config, data: Option<Assembly>, s: seq<byte>)
    requires Sound(data) && ParseHead(c, data, s).Good?
    ensures var head := ParseHead(c, data, s);
      forall body :: var a := Advance(Start(data, head.h), body);
        !Rejected(a) ==> Sound(if GetFin(head.h) then AfterFinal(data, head.h) else Some(a))
  {
    hide ParseHead, GetOpcode, GetFin, Rejected;
    if !GetFin(ParseHead(c, data, s).h) {
      FragmentIsData(c, data, s);
    }
  }

  /** The first frame in the joining of fragments. */
  lemma AssembleStep(c: Config, data: Option<Assembly>, s: seq<byte>, more: seq<FrameInfo>)
    requires ParseHead(c, data, s).Good?
    requires ParseHead(c, data, s).length + ParseHead(c, data, s).size <= |s|
    ensures var head := ParseHead(c, data, s);
      var body := s[head.length..head.length + head.size];
      var a := Advance(Start(data, head.h), Masked(body, head.key, 0));
      var next := if GetFin(head.h) then AfterFinal(data, head.h) else Some(a);
      Assemble(Open(data), [Info(head, body)] + more) ==
      (if GetFin(head.h) then [Deliver(a)] else []) + Assemble(Open(next), more)
  {
    hide ParseHead, Advance, Masked, GetOpcode, GetFin;
    var head := ParseHead(c, data, s);
    var body := s[head.length..head.length + head.size];
    AdvanceJoins(data, head.h, Masked(body, head.key, 0));
    if !GetFin(head.h) {
      FragmentIsData(c, data, s);
    }
    assert ([Info(head, body)] + more)[1..] == more;
    assert [] + Assemble(Open(data), more) == Assemble(Open(data), more);
  }

  /** And with an error, the frame after them is the one that fails, by the check that the
      error names. */
  lemma {:induction false} FailingFrame(c: Config, data: Option<Assembly>, s: seq<byte>)
    requires Parse(c, data, s).error.Some?
    ensures var (d, rest) := After(data, s, FramesRead(c, data, s));
      FailsHere(c, d, rest, Parse(c, data, s).error.value)
    decreases |s|
  {
    hide ParseHead, RawHead, Advance, Masked, Rejected, GetOpcode, GetFin, EndsMidCharacter;
    var head := ParseHead(c, data, s);
    CheckedHead(c, data, s);
    if head.Good? && FramesRead(c, data, s) > 0 {
      var n := Min(head.size, |s| - head.length);
      var a := Advance(Start(data, head.h), Masked(s[head.length..head.length + n], head.key, 0));
      FailingFrame(c, if GetFin(head.h) then AfterFinal(data, head.h) else Some(a), s[head.length + n..]);
    }
  }

  lemma TakeCons(f: FrameInfo, rest: seq<FrameInfo>, k: nat)
    requires k <= |rest|
    ensures ([f] + rest)[..k + 1] == [f] + rest[..k]
    ensures ([f] + rest[..k])[1..] == rest[..k]
  {
  }

  lemma AdvanceJoins(data: Option<Assembly>, h: BasicHeader, body: seq<byte>)
    ensures var a := Advance(Start(data, h), body);
      && a.opcode == (if IsControl(GetOpcode(h)) || data.None? then GetOpcode(h) else data.value.opcode)
      && a.payload == (if IsControl(GetOpcode(h)) || data.None? then body else data.value.payload + body)
  {
    assert [] + body == body;
  }

  lemma FragmentIsData(c: Config, data: Option<Assembly>, s: seq<byte>)
    requires ParseHead(c, data, s).Good? && !GetFin(ParseHead(c, data, s).h)
    ensures !IsControl(GetOpcode(ParseHead(c, data, s).h))
  {
  }

  // -------------------------------------------------- what is ever delivered

  /** What holds of a data message under assembly: its size is within the limit and
      its text so far could still be completed to well-formed UTF-8. */
  ghost predicate Coherent(c: Config, data: Option<Assembly>) {
    data.Some? ==>
      var a := data.value;
      && a.opcode in {TEXT, BINARY}
      && |a.payload| <= c.maxMessageSize
      && (a.opcode == TEXT ==> a.utf8 == Utf8.Run(Utf8.FRESH, a.payload) && !Rejected(a))
  }

  /** What holds of every message delivered. */
  ghost predicate Acceptable(c: Config, m: Message) {
    if IsControl(m.opcode) then m.opcode in {CLOSE, PING, PONG} && |m.payload| <= PAYLOAD_SIZE_BASIC
    else
      && m.opcode in {TEXT, BINARY}
      && |m.payload| <= c.maxMessageSize
      && (m.opcode == TEXT ==> exists t :: Utf8.WellFormed(m.payload + t))
  }

  /** Every message delivered from a stream short enough for the size sum not to wrap
      is acceptable, whatever the bytes. */
  lemma {:induction false} DeliversAcceptable(c: Config, data: Option<Assembly>, s: seq<byte>)
    requires Coherent(c, data) && |s| + c.maxMessageSize < TWO_64
    ensures forall m :: m in Parse(c, data, s).messages ==> Acceptable(c, m)
    decreases |s|
  {
    hide ParseHead, Advance, Masked, Rejected, Acceptable, Coherent, IsControl;
    var head := ParseHead(c, data, s);
    if !head.Good? { return; }
    var n := Min(head.size, |s| - head.length);
    var body := Masked(s[head.length..head.length + n], head.key, 0);
    var a := Advance(Start(data, head.h), body);
    var rest := s[head.length + n..];
    if Rejected(a) || n < head.size { return; }
    AdvanceAcceptable(c, data, s, body);
    if !GetFin(head.h) {
      DeliversAcceptable(c, Some(a), rest);
    } else if !EndsMidCharacter(head.h, a) {
      DeliversAcceptable(c, AfterFinal(data, head.h), rest);
    }
  }

  lemma AdvanceAcceptable(c: Config, data: Option<Assembly>, s: seq<byte>, body: seq<byte>)
    requires Coherent(c, data) && |s| + c.maxMessageSize < TWO_64
    requires var head := ParseHead(c, data, s);
      head.Good? && |body| == head.size <= |s| && !Rejected(Advance(Start(data, head.h), body))
    ensures var head := ParseHead(c, data, s);
      var a := Advance(Start(data, head.h), body);
      && Acceptable(c, Deliver(a)) && Coherent(c, AfterFinal(data, head.h))
      && (!GetFin(head.h) ==> Coherent(c, Some(a)))
  {
    hide ParseHead, Utf8.WellFormed, Utf8.Run;
    var h := ParseHead(c, data, s).h;
    var a := Advance(Start(data, h), body);
    CheckedOpcode(c, data, s);
    AdvanceJoins(data, h, body);
    if a.opcode == TEXT {
      TextSoFar(data, h, body);
      Utf8.NotRejectedIffExtendable(a.payload);
    }
  }

  /** What the checks leave possible for the frame s begins with. */
  lemma CheckedOpcode(c: Config, data: Option<Assembly>, s: seq<byte>)
    requires ParseHead(c, data, s).Good?
    ensures var head := ParseHead(c, data, s);
      var op := GetOpcode(head.h);
      && (IsControl(op) ==> op in {CLOSE, PING, PONG} && head.size <= PAYLOAD_SIZE_BASIC && GetFin(head.h))
      && (!IsControl(op) ==> op in (if data.None? then {TEXT, BINARY} else {CONTINUATION}))
      && !TooBig(c, data, head.h, head.size)
      && GetMasked(head.h) == c.isServer
      && !GetRsv1(head.h) && !GetRsv2(head.h) && !GetRsv3(head.h)
  {
    hide GetMaskingKey, HeaderLength, BigEndian, GetMasked;
  }

  lemma TextSoFar(data: Option<Assembly>, h: BasicHeader, body: seq<byte>)
    requires var a := Advance(Start(data, h), body); a.opcode == TEXT && !Rejected(a)
    requires !IsControl(GetOpcode(h)) && data.Some? && data.value.opcode == TEXT ==>
      data.value.utf8 == Utf8.Run(Utf8.FRESH, data.value.payload) && !Rejected(data.value)
    ensures var a := Advance(Start(data, h), body); a.utf8 == Utf8.Run(Utf8.FRESH, a.payload)
  {
    var start := Start(data, h);
    assert Utf8.Run(Utf8.FRESH, []) == Utf8.FRESH;
    Utf8.RunConcat(Utf8.FRESH, start.payload, body);
  }

  /** The size check on a continuation frame lets through exactly the sizes that keep
      the message within the limit, unless the 64-bit sum wraps around. */
  lemma SizeCheckExact(c: Config, a: Assembly, h: BasicHeader, size: uint64)
    requires !IsControl(GetOpcode(h)) && |a.payload| <= c.maxMessageSize && !TooBig(c, Some(a), h, size)
    ensures |a.payload| + size <= c.maxMessageSize <==> |a.payload| + size < TWO_64
  {
  }

  /** It can wrap: after one byte, a header that announces 2^64 - 1 more is let through. */
  lemma SizeCheckWraps(c: Config, b: byte, key: MaskingKey)
    requires c.isServer
    ensures ParseHead(c, Some(Assembly(BINARY, [b], Utf8.FRESH)), LongHeader(key)) ==
            Good(BasicHeader(0x80, 0xFF), key, 0xFFFF_FFFF_FFFF_FFFF, 14)
  {
    hide BigEndian, ToBigEndian;
    var s, ones: seq<byte> := LongHeader(key), seq(8, _ => 0xFF);
    var h := BasicHeader(0x80, 0xFF);
    assert s == [0x80, 0xFF] + (ones + key) && s[2..14] == ones + key;
    assert s[0] == 0x80 && s[1] == 0xFF && HeaderLength(h) == 14;
    var e := Padded(s[2..14]);
    assert e == ones + key;
    assert e[..8] == ones;
    assert e[8..12] == key;
    AllOnes();
  }

  /** FIN, continuation, masked, and a length of eight bytes, all ones. */
  function LongHeader(key: MaskingKey): (s: seq<byte>)
    ensures |s| == 14
  {
    [0x80, 0xFF] + seq(8, _ => 0xFF) + key
  }

  lemma AllOnes()
    ensures BigEndian(seq(8, _ => 0xFF)) == 0xFFFF_FFFF_FFFF_FFFF
  {
    Pow256Values();
    BigEndianInverts(0xFFFF_FFFF_FFFF_FFFF, 8);
    assert ToBigEndian(0xFFFF_FFFF_FFFF_FFFF, 8) == seq(8, _ => 0xFF);
  }

  // ---------------------------------------- the message under assembly

  /** The data message under assembly once s has been read, with what has come of the
      last frame. */
  function UnderAssembly(c: Config, data: Option<Assembly>, s: seq<byte>): Option<Assembly>
    decreases |s|
  {
    match ParseHead(c, data, s)
    case Incomplete => data
    case Bad(_) => data
    case Good(h, key, size, length) =>
      var n := Min(size, |s| - length);
      var a := Advance(Start(data, h), Masked(s[length..length + n], key, 0));
      var rest := s[length + n..];
      if n < size || Rejected(a) || (GetFin(h) && EndsMidCharacter(h, a)) then
        if IsControl(GetOpcode(h)) then data else Some(a)
      else UnderAssembly(c, if GetFin(h) then AfterFinal(data, h) else Some(a), rest)
  }

  /** No data frame announces a size that takes the 64-bit sum around. */
  predicate SizesFit(c: Config, data: Option<Assembly>, s: seq<byte>)
    decreases |s|
  {
    match ParseHead(c, data, s)
    case Incomplete => true
    case Bad(_) => true
    case Good(h, key, size, length) =>
      var n := Min(size, |s| - length);
      var a := Advance(Start(data, h), Masked(s[length..length + n], key, 0));
      && (!IsControl(GetOpcode(h)) ==> |Start(data, h).payload| + size < TWO_64)
      && (n == size ==> SizesFit(c, if GetFin(h) then AfterFinal(data, h) else Some(a), s[length + n..]))
  }

  /** At any time the message under assembly is within the limit, if no size wraps. */
  lemma {:induction false} AssemblyBounded(c: Config, data: Option<Assembly>, s: seq<byte>)
    requires data.Some? ==> |data.value.payload| <= c.maxMessageSize
    requires SizesFit(c, data, s)
    ensures UnderAssembly(c, data, s).Some? ==> |UnderAssembly(c, data, s).value.payload| <= c.maxMessageSize
    decreases |s|
  {
    hide ParseHead, Masked, Rejected, EndsMidCharacter, Advance, Start, AfterFinal, GetFin, GetOpcode, IsControl;
    var head := ParseHead(c, data, s);
    if head.Good? {
      var n := Min(head.size, |s| - head.length);
      var body := Masked(s[head.length..head.length + n], head.key, 0);
      var a := Advance(Start(data, head.h), body);
      AnnouncedFits(c, data, s, body);
      if n == head.size {
        AssemblyBounded(c, if GetFin(head.h) then AfterFinal(data, head.h) else Some(a), s[head.length + n..]);
      }
    }
  }

  lemma AnnouncedFits(c: Config, data: Option<Assembly>, s: seq<byte>, body: seq<byte>)
    requires ParseHead(c, data, s).Good? && (data.Some? ==> |data.value.payload| <= c.maxMessageSize)
    requires |body| <= ParseHead(c, data, s).size
    requires var head := ParseHead(c, data, s);
      !IsControl(GetOpcode(head.h)) ==> |Start(data, head.h).payload| + head.size < TWO_64
    ensures var head := ParseHead(c, data, s);
      var next := AfterFinal(data, head.h);
      && (!IsControl(GetOpcode(head.h)) ==> |Advance(Start(data, head.h), body).payload| <= c.maxMessageSize)
      && (!GetFin(head.h) ==> !IsControl(GetOpcode(head.h)))
      && (next.Some? ==> |next.value.payload| <= c.maxMessageSize)
  {
    hide ParseHead;
    CheckedOpcode(c, data, s);
  }

  /** Behind a complete frame without FIN. */
  lemma AssemblyContinues(c: Config, data: Option<Assembly>, s: seq<byte>, rest: seq<byte>)
    requires var head := ParseHead(c, data, s);
      head.Good? && |s| - head.length == head.size && !GetFin(head.h) && !Rejected(Partial(data, head, s))
    ensures UnderAssembly(c, data, s + rest) ==
            UnderAssembly(c, Some(Partial(data, ParseHead(c, data, s), s)), rest)
  {
    hide ParseHead, Masked, Advance, Rejected;
    var head := ParseHead(c, data, s);
    HeadStable(c, data, s, rest);
    assert (s + rest)[head.length..head.length + head.size] == s[head.length..];
    assert (s + rest)[head.length + head.size..] == rest;
  }

  /** When one does, the message outgrows every limit: the bytes behind such a header are
      taken in as they come. */
  lemma LimitPassed(c: Config, b: byte, key: MaskingKey, more: seq<byte>)
    requires c.isServer && |more| == c.maxMessageSize < TWO_64 - 1
    ensures var m := UnderAssembly(c, Some(Assembly(BINARY, [b], Utf8.FRESH)), LongHeader(key) + more);
      m.Some? && |m.value.payload| == c.maxMessageSize + 1
  {
    hide ParseHead, Masked, LongHeader;
    var data := Some(Assembly(BINARY, [b], Utf8.FRESH));
    SizeCheckWraps(c, b, key);
    HeadStable(c, data, LongHeader(key), more);
  }

  /** A text message in one frame is delivered exactly when it is well-formed UTF-8. */
  lemma SingleFrameText(c: Config, s: seq<byte>)
    requires var head := ParseHead(c, None, s);
      && head.Good? && head.length + head.size <= |s| && GetOpcode(head.h) == TEXT && GetFin(head.h)
    ensures var head := ParseHead(c, None, s);
      var end := head.length + head.size;
      var text := Masked(s[head.length..end], head.key, 0);
      if Utf8.WellFormed(text) then Parse(c, None, s) == Prepend([Message(TEXT, text)], Parse(c, None, s[end..]))
      else Parse(c, None, s) == Failed(InvalidUtf8)
  {
    hide ParseHead, Masked, Parse, Utf8.WellFormed, Utf8.Run;
    var head := ParseHead(c, None, s);
    var text := Masked(s[head.length..head.length + head.size], head.key, 0);
    assert [] + text == text;
    CompleteText(c, s);
    Utf8.ValidIffWellFormed(text);
  }

  lemma CompleteText(c: Config, s: seq<byte>)
    requires var head := ParseHead(c, None, s);
      && head.Good? && head.length + head.size <= |s| && GetOpcode(head.h) == TEXT && GetFin(head.h)
    ensures var head := ParseHead(c, None, s);
      var end := head.length + head.size;
      var a := Advance(Start(None, head.h), Masked(s[head.length..end], head.key, 0));
      Parse(c, None, s) ==
      if a.utf8.state == Utf8.ACCEPT then Prepend([Deliver(a)], Parse(c, None, s[end..])) else Failed(InvalidUtf8)
  {
    hide ParseHead, Masked, Utf8.Run;
  }
}
