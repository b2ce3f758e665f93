// What a stream of WebSocket bytes means (sections 5.2 to 5.5 of RFC 6455, with
// the checks of hybi13.hpp in their order): a parser that reads the whole stream
// at once and keeps no state but the data message under assembly.
module OneShot {
  import opened Bytes
  import opened Masking
  import opened Frame
  import Utf8

  datatype Config = Config(isServer: bool, maxMessageSize: uint64)

  datatype Message = Message(opcode: Opcode, payload: seq<byte>)

  /** A message of which some frames, or part of one, have been read. */
  datatype Assembly = Assembly(opcode: Opcode, payload: seq<byte>, utf8: Utf8.Decoder)

  /** The messages delivered, and the error that stopped the stream, if any. */
  datatype Outcome = Outcome(messages: seq<Message>, error: Option<Error>)

  datatype Head =
    | Incomplete
    | Bad(error: Error)
    | Good(h: BasicHeader, key: MaskingKey, size: uint64, length: nat)

  const NOTHING: Outcome := Outcome([], None)

  function Failed(e: Error): Outcome { Outcome([], Some(e)) }

  function Prepend(messages: seq<Message>, o: Outcome): Outcome {
    Outcome(messages + o.messages, o.error)
  }

  /** The size limit; the sum of sizes is taken in a 64-bit size_t. */
  predicate TooBig(c: Config, data: Option<Assembly>, h: BasicHeader, size: uint64) {
    if IsControl(GetOpcode(h)) then false
    else if data.None? then size > c.maxMessageSize
    else (|data.value.payload| + size) % TWO_64 > c.maxMessageSize
  }

  /** Reads and checks the header of the frame s begins with. */
  function ParseHead(c: Config, data: Option<Assembly>, s: seq<byte>): (r: Head)
    ensures r.Good? ==> 2 <= r.length <= |s|
  {
    if |s| < 2 then Incomplete
    else
      var h := BasicHeader(s[0], s[1]);
      var basic := ValidateBasic(h, c.isServer, data.None?);
      if basic.Some? then Bad(basic.value)
      else if |s| < HeaderLength(h) then Incomplete
      else
        var e := Padded(s[2..HeaderLength(h)]);
        var extended := ValidateExtended(h, e);
        if extended.Some? then Bad(extended.value)
        else if TooBig(c, data, h, GetPayloadSize(h, e)) then Bad(MessageTooBig)
        else Good(h, GetMaskingKey(h, e), GetPayloadSize(h, e), HeaderLength(h))
  }

  /** The message a frame with header h contributes to, before the frame. */
  function Start(data: Option<Assembly>, h: BasicHeader): Assembly {
    if IsControl(GetOpcode(h)) || data.None? then Assembly(GetOpcode(h), [], Utf8.FRESH)
    else data.value
  }

  /** The message after unmasked payload bytes; only text is checked as UTF-8. */
  function Advance(a: Assembly, bytes: seq<byte>): Assembly {
    Assembly(a.opcode, a.payload + bytes, if a.opcode == TEXT then Utf8.Run(a.utf8, bytes) else a.utf8)
  }

  /** What a data message under assembly satisfies between frames. */
  predicate Sound(base: Option<Assembly>) {
    base.Some? ==> !Rejected(base.value) && !IsControl(base.value.opcode)
  }

  predicate Rejected(a: Assembly) { a.opcode == TEXT && a.utf8.state == Utf8.REJECT }

  /** The final test of finalize_message looks at the opcode of the last frame. */
  predicate EndsMidCharacter(h: BasicHeader, a: Assembly) {
    GetOpcode(h) == TEXT && a.utf8.state != Utf8.ACCEPT
  }

  function Deliver(a: Assembly): Message { Message(a.opcode, a.payload) }

  /** The data message under assembly after a complete final frame. */
  function AfterFinal(data: Option<Assembly>, h: BasicHeader): Option<Assembly> {
    if IsControl(GetOpcode(h)) then data else None
  }

  /** The one-shot parser. */
  function Parse(c: Config, data: Option<Assembly>, s: seq<byte>): Outcome
    decreases |s|
  {
    match ParseHead(c, data, s)
    case Incomplete => NOTHING
    case Bad(e) => Failed(e)
    case Good(h, key, size, length) =>
      var n := Min(size, |s| - length);
      var a := Advance(Start(data, h), Masked(s[length..length + n], key, 0));
      var rest := s[length + n..];
      if Rejected(a) then Failed(InvalidUtf8)
      else if n < size then NOTHING
      else if !GetFin(h) then Parse(c, Some(a), rest)
      else if EndsMidCharacter(h, a) then Failed(InvalidUtf8)
      else Prepend([Deliver(a)], Parse(c, AfterFinal(data, h), rest))
  }

  // --------------------------------------------------- how streams continue

  /** Whatever follows, s2 read with b2 under assembly has the outcome of s1 with b1. */
  ghost predicate SameFuture(c: Config, b1: Option<Assembly>, s1: seq<byte>, b2: Option<Assembly>, s2: seq<byte>) {
    forall t :: Parse(c, b1, s1 + t) == Parse(c, b2, s2 + t)
  }

  /** Whatever follows, s read with b under assembly delivers nothing and fails with e. */
  ghost predicate Fails(c: Config, b: Option<Assembly>, s: seq<byte>, e: Error) {
    forall t :: Parse(c, b, s + t) == Failed(e)
  }

  /** Whatever follows, s1 first delivers the messages and then goes on as s2. */
  ghost predicate Delivers(c: Config, b1: Option<Assembly>, s1: seq<byte>, messages: seq<Message>,
                           b2: Option<Assembly>, s2: seq<byte>)
  {
    forall t :: Parse(c, b1, s1 + t) == Prepend(messages, Parse(c, b2, s2 + t))
  }

  /** Whatever follows, s delivers the messages and then fails with e. */
  ghost predicate FailsAfter(c: Config, b: Option<Assembly>, s: seq<byte>, messages: seq<Message>, e: Error) {
    forall t :: Parse(c, b, s + t) == Outcome(messages, Some(e))
  }

  lemma DeliversNothing(c: Config, b: Option<Assembly>, s: seq<byte>)
    ensures Delivers(c, b, s, [], b, s)
  {
  }

  lemma DeliversConcat(c: Config, b0: Option<Assembly>, s0: seq<byte>, x: seq<Message>, b1: Option<Assembly>,
                       s1: seq<byte>, chunk: seq<byte>, y: seq<Message>, b2: Option<Assembly>, s2: seq<byte>)
    requires Delivers(c, b0, s0, x, b1, s1) && Delivers(c, b1, s1 + chunk, y, b2, s2)
    ensures Delivers(c, b0, s0 + chunk, x + y, b2, s2)
  {
    hide Parse;
    forall t ensures Parse(c, b0, s0 + chunk + t) == Prepend(x + y, Parse(c, b2, s2 + t)) {
      assert s0 + chunk + t == s0 + (chunk + t) && s1 + chunk + t == s1 + (chunk + t);
      var o := Parse(c, b2, s2 + t).messages;
      assert x + y + o == x + (y + o);
    }
  }

  lemma FailsAfterConcat(c: Config, b0: Option<Assembly>, s0: seq<byte>, x: seq<Message>, b1: Option<Assembly>,
                         s1: seq<byte>, chunk: seq<byte>, y: seq<Message>, e: Error)
    requires Delivers(c, b0, s0, x, b1, s1) && FailsAfter(c, b1, s1 + chunk, y, e)
    ensures FailsAfter(c, b0, s0 + chunk, x + y, e)
  {
    hide Parse;
    forall t ensures Parse(c, b0, s0 + chunk + t) == Outcome(x + y, Some(e)) {
      assert s0 + chunk + t == s0 + (chunk + t) && s1 + chunk + t == s1 + (chunk + t);
    }
  }

  lemma FailsAfterAt(c: Config, b: Option<Assembly>, s: seq<byte>, messages: seq<Message>, e: Error, t: seq<byte>)
    requires FailsAfter(c, b, s, messages, e)
    ensures Parse(c, b, s + t) == Outcome(messages, Some(e))
  {
  }

  lemma DeliversAt(c: Config, b1: Option<Assembly>, s1: seq<byte>, messages: seq<Message>,
                   b2: Option<Assembly>, s2: seq<byte>)
    requires Delivers(c, b1, s1, messages, b2, s2)
    ensures Parse(c, b1, s1) == Prepend(messages, Parse(c, b2, s2))
  {
    assert s1 + [] == s1 && s2 + [] == s2;
    assert Parse(c, b1, s1 + []) == Prepend(messages, Parse(c, b2, s2 + []));
  }

  lemma SameFutureDelivers(c: Config, b1: Option<Assembly>, s1: seq<byte>, b2: Option<Assembly>, s2: seq<byte>)
    requires SameFuture(c, b1, s1, b2, s2)
    ensures Delivers(c, b1, s1, [], b2, s2)
  {
    hide Parse;
    forall t ensures Parse(c, b1, s1 + t) == Prepend([], Parse(c, b2, s2 + t)) {
      var o := Parse(c, b2, s2 + t);
      assert Parse(c, b1, s1 + t) == o && [] + o.messages == o.messages;
    }
  }

  lemma FailsDeliversNothing(c: Config, b: Option<Assembly>, s: seq<byte>, e: Error)
    requires Fails(c, b, s, e)
    ensures FailsAfter(c, b, s, [], e)
  {
  }

  /** The final frame delivers and leaves an empty remainder. */
  lemma FinalFrame(c: Config, data: Option<Assembly>, s: seq<byte>)
    requires var head := ParseHead(c, data, s);
      && head.Good? && |s| - head.length == head.size && GetFin(head.h)
      && !Rejected(Partial(data, head, s)) && !EndsMidCharacter(head.h, Partial(data, head, s))
    ensures var head := ParseHead(c, data, s);
      Delivers(c, data, s, [Deliver(Partial(data, head, s))], AfterFinal(data, head.h), [])
  {
    var head := ParseHead(c, data, s);
    var m := Deliver(Partial(data, head, s));
    forall t ensures Parse(c, data, s + t) == Prepend([m], Parse(c, AfterFinal(data, head.h), [] + t)) {
      FinalDelivers(c, data, s, t);
      assert [] + t == t;
    }
  }

  lemma SameFutureReflexive(c: Config, b: Option<Assembly>, s: seq<byte>)
    ensures SameFuture(c, b, s, b, s)
  {
  }

  /** A stream that has failed on the first k bytes of `more` fails on all of them. */
  lemma FailsExtends(c: Config, b: Option<Assembly>, s: seq<byte>, more: seq<byte>, k: nat, e: Error)
    requires k <= |more| && Fails(c, b, s + more[..k], e)
    ensures Fails(c, b, s + more, e)
  {
    hide Parse;
    forall t ensures Parse(c, b, s + more + t) == Failed(e) {
      assert s + more + t == s + more[..k] + (more[k..] + t);
    }
  }

  /** Appending the next n input bytes on both sides of a future. */
  lemma SameFutureStep(c: Config, b0: Option<Assembly>, s0: seq<byte>, input: seq<byte>, p: nat,
                       b1: Option<Assembly>, s1: seq<byte>, n: nat, b2: Option<Assembly>, s2: seq<byte>)
    requires p + n <= |input| && SameFuture(c, b0, s0 + input[..p], b1, s1)
    requires SameFuture(c, b1, s1 + input[p..p + n], b2, s2)
    ensures SameFuture(c, b0, s0 + input[..p + n], b2, s2)
  {
    hide Parse;
    var chunk := input[p..p + n];
    forall t ensures Parse(c, b0, s0 + input[..p + n] + t) == Parse(c, b2, s2 + t) {
      assert s0 + input[..p + n] + t == s0 + input[..p] + (chunk + t);
      assert s1 + (chunk + t) == s1 + chunk + t;
    }
  }

  lemma FailsLater(c: Config, b0: Option<Assembly>, s0: seq<byte>, input: seq<byte>, p: nat,
                   b1: Option<Assembly>, s1: seq<byte>, e: Error)
    requires p <= |input| && SameFuture(c, b0, s0 + input[..p], b1, s1)
    requires Fails(c, b1, s1 + input[p..], e)
    ensures Fails(c, b0, s0 + input, e)
  {
    hide Parse;
    forall t ensures Parse(c, b0, s0 + input + t) == Failed(e) {
      assert s0 + input + t == s0 + input[..p] + (input[p..] + t);
      assert s1 + (input[p..] + t) == s1 + input[p..] + t;
    }
  }

  /** A header that has been read does not change with what follows. */
  lemma HeadStable(c: Config, data: Option<Assembly>, s: seq<byte>, t: seq<byte>)
    requires !ParseHead(c, data, s).Incomplete?
    ensures ParseHead(c, data, s + t) == ParseHead(c, data, s)
  {
    var h := BasicHeader(s[0], s[1]);
    if HeaderLength(h) <= |s| {
      assert (s + t)[2..HeaderLength(h)] == s[2..HeaderLength(h)];
    }
  }

  lemma BadHeadFails(c: Config, data: Option<Assembly>, s: seq<byte>)
    requires ParseHead(c, data, s).Bad?
    ensures Fails(c, data, s, ParseHead(c, data, s).error)
  {
    forall t ensures Parse(c, data, s + t) == Failed(ParseHead(c, data, s).error) {
      HeadStable(c, data, s, t);
    }
  }

  /** The message once the frame bytes s, whose header has been read, are in. */
  function Partial(data: Option<Assembly>, head: Head, s: seq<byte>): Assembly
    requires head.Good? && head.length <= |s|
  {
    Advance(Start(data, head.h), Masked(s[head.length..], head.key, 0))
  }

  lemma {:induction false} AdvanceConcat(a: Assembly, x: seq<byte>, y: seq<byte>)
    ensures !Rejected(Advance(a, x)) ==> Advance(a, x + y) == Advance(Advance(a, x), y)
    ensures Rejected(Advance(a, x)) ==> Rejected(Advance(a, x + y))
  {
    assert a.payload + (x + y) == a.payload + x + y;
    Utf8.RunConcat(a.utf8, x, y);
  }

  /** Payload bytes that arrive later continue the message where it stood. */
  lemma {:induction false} PartialConcat(data: Option<Assembly>, head: Head, s: seq<byte>, t: seq<byte>)
    requires head.Good? && head.length <= |s|
    ensures var a := Partial(data, head, s); var b := Partial(data, head, s + t);
      && (!Rejected(a) ==> b == Advance(a, Masked(t, head.key, |s| - head.length)))
      && (Rejected(a) ==> Rejected(b))
  {
    var x := s[head.length..];
    assert (s + t)[head.length..] == x + t;
    MaskedConcat(x, t, head.key, 0);
    AdvanceConcat(Start(data, head.h), Masked(x, head.key, 0), Masked(t, head.key, |x|));
  }

  /** Text that is rejected inside a frame fails the stream. */
  lemma RejectedFails(c: Config, data: Option<Assembly>, s: seq<byte>)
    requires var head := ParseHead(c, data, s);
      head.Good? && |s| - head.length <= head.size && Rejected(Partial(data, head, s))
    ensures Fails(c, data, s, InvalidUtf8)
  {
    hide ParseHead, Advance, Masked, Start;
    var head := ParseHead(c, data, s);
    forall t ensures Parse(c, data, s + t) == Failed(InvalidUtf8) {
      HeadStable(c, data, s, t);
      var n := Min(head.size, |s + t| - head.length);
      var u := t[..head.length + n - |s|];
      assert (s + t)[head.length..head.length + n] == (s + u)[head.length..];
      PartialConcat(data, head, s, u);
    }
  }

  /** A complete frame that is not the last of its message. */
  lemma FragmentContinues(c: Config, data: Option<Assembly>, s: seq<byte>)
    requires var head := ParseHead(c, data, s);
      head.Good? && |s| - head.length == head.size && !Rejected(Partial(data, head, s)) && !GetFin(head.h)
    ensures SameFuture(c, data, s, Some(Partial(data, ParseHead(c, data, s), s)), [])
  {
    var head := ParseHead(c, data, s);
    var a := Partial(data, head, s);
    forall t ensures Parse(c, data, s + t) == Parse(c, Some(a), [] + t) {
      CompleteFrame(c, data, s, t);
      assert [] + t == t;
    }
  }

  /** A complete final frame delivers its message. */
  lemma FinalDelivers(c: Config, data: Option<Assembly>, s: seq<byte>, t: seq<byte>)
    requires var head := ParseHead(c, data, s);
      && head.Good? && |s| - head.length == head.size && GetFin(head.h)
      && !Rejected(Partial(data, head, s)) && !EndsMidCharacter(head.h, Partial(data, head, s))
    ensures var head := ParseHead(c, data, s);
      Parse(c, data, s + t) == Prepend([Deliver(Partial(data, head, s))], Parse(c, AfterFinal(data, head.h), t))
  {
    CompleteFrame(c, data, s, t);
  }

  lemma EndsMidCharacterFails(c: Config, data: Option<Assembly>, s: seq<byte>)
    requires var head := ParseHead(c, data, s);
      && head.Good? && |s| - head.length == head.size && GetFin(head.h)
      && !Rejected(Partial(data, head, s)) && EndsMidCharacter(head.h, Partial(data, head, s))
    ensures Fails(c, data, s, InvalidUtf8)
  {
    forall t ensures Parse(c, data, s + t) == Failed(InvalidUtf8) {
      CompleteFrame(c, data, s, t);
    }
  }

  /** How the parser cuts a stream that begins with the complete frame s. */
  lemma CompleteFrame(c: Config, data: Option<Assembly>, s: seq<byte>, t: seq<byte>)
    requires var head := ParseHead(c, data, s); head.Good? && |s| - head.length == head.size
    ensures var head := ParseHead(c, data, s);
      && ParseHead(c, data, s + t) == head
      && Min(head.size, |s + t| - head.length) == head.size
      && (s + t)[head.length..head.length + head.size] == s[head.length..]
      && (s + t)[head.length + head.size..] == t
  {
    HeadStable(c, data, s, t);
  }

  /** While a frame is incomplete and its text is not rejected, nothing happens. */
  lemma IncompleteIsNothing(c: Config, data: Option<Assembly>, s: seq<byte>)
    requires var head := ParseHead(c, data, s);
      head.Incomplete? || (head.Good? && |s| - head.length < head.size && !Rejected(Partial(data, head, s)))
    ensures Parse(c, data, s) == NOTHING
  {
    var head := ParseHead(c, data, s);
    if head.Good? {
      assert s[head.length..head.length + (|s| - head.length)] == s[head.length..];
    }
  }
}
