// close.hpp, and prepare_close of hybi13.hpp up to the frame: the payload of a close
// frame (sections 5.5.1 and 7.4 of RFC 6455).
module CloseCodes {
  import opened Bytes
  import Utf8

  type Code = x: int | 0 <= x < 0x1_0000

  const BLANK: Code := 0
  const NORMAL: Code := 1000
  const PROTOCOL_ERROR: Code := 1002
  const NO_STATUS: Code := 1005
  const ABNORMAL_CLOSE: Code := 1006
  const INVALID_PAYLOAD: Code := 1007
  const POLICY_VIOLATION: Code := 1008
  const MESSAGE_TOO_BIG: Code := 1009
  const INTERNAL_ERROR: Code := 1011
  const TLS_HANDSHAKE: Code := 1015

  /** close_reason_size, which is payload_size_basic - 2. */
  const REASON_SIZE: nat := 123

  datatype CloseError = ReservedCode | InvalidCode | ReasonRequiresCode | ReasonTooBig | BadCode | InvalidReason

  /** status::reserved */
  predicate Reserved(code: Code) { 1016 <= code <= 2999 || code == 1004 }

  /** status::invalid */
  predicate Invalid(code: Code) { code <= 999 || code >= 5000 || code in {NO_STATUS, ABNORMAL_CLOSE, TLS_HANDSHAKE} }

  /** status::terminal */
  predicate Terminal(code: Code) {
    code in {PROTOCOL_ERROR, INVALID_PAYLOAD, POLICY_VIOLATION, MESSAGE_TOO_BIG, INTERNAL_ERROR}
  }

  datatype Prepared = Refused(error: CloseError) | Payload(bytes: seq<byte>)

  /** prepare_close: the checks, and the payload. */
  function ClosePayload(code: Code, reason: seq<byte>): Prepared {
    if Reserved(code) then Refused(ReservedCode)
    else if Invalid(code) && code != NO_STATUS then Refused(InvalidCode)
    else if code == NO_STATUS && |reason| > 0 then Refused(ReasonRequiresCode)
    else if |reason| > REASON_SIZE then Refused(ReasonTooBig)
    else Payload(if code != NO_STATUS then [code / 0x100, code % 0x100] + reason else [])
  }

  /** extract_code; a reserved code overrides an invalid one. */
  function ExtractCode(payload: seq<byte>): (Code, Option<CloseError>) {
    if |payload| == 0 then (NO_STATUS, None)
    else if |payload| == 1 then (PROTOCOL_ERROR, Some(BadCode))
    else
      var code: Code := payload[0] as int * 0x100 + payload[1];
      (code, if Reserved(code) then Some(ReservedCode) else if Invalid(code) then Some(InvalidCode) else None)
  }

  /** The reason that extract_reason returns; it reports an error unless that is UTF-8. */
  function ExtractReason(payload: seq<byte>): seq<byte> {
    if |payload| > 2 then payload[2..] else []
  }

  method CheckedReason(payload: seq<byte>) returns (reason: seq<byte>, ec: Option<CloseError>)
    ensures reason == ExtractReason(payload)
    ensures ec == if Utf8.WellFormed(reason) then None else Some(InvalidReason)
  {
    reason := [];
    if |payload| > 2 {
      reason := reason + payload[2..];
    }
    assert reason == ExtractReason(payload);
    var ok := Utf8.Validate(reason);
    ec := if ok then None else Some(InvalidReason);
  }

  /** Which codes and reasons can be sent. */
  lemma PayloadIff(code: Code, reason: seq<byte>)
    ensures ClosePayload(code, reason).Payload? <==>
            if code == NO_STATUS then reason == []
            else !Reserved(code) && !Invalid(code) && |reason| <= REASON_SIZE
  {
  }

  /** What prepare_close writes is what extract_code and extract_reason read; the reason
      is an error to the reader exactly when it is not UTF-8. */
  lemma CloseReadBack(code: Code, reason: seq<byte>)
    requires ClosePayload(code, reason).Payload?
    ensures var p := ClosePayload(code, reason).bytes;
      |p| <= REASON_SIZE + 2 && ExtractCode(p) == (code, None) && ExtractReason(p) == reason
  {
    if code != NO_STATUS {
      var p := ClosePayload(code, reason).bytes;
      assert p[2..] == reason;
      assert p[0] as int * 0x100 + p[1] == code;
    }
  }

  /** And every payload that fits a control frame and is read without an error is what
      prepare_close writes for the code and reason read. */
  lemma CloseCanonical(payload: seq<byte>)
    requires |payload| <= REASON_SIZE + 2 && ExtractCode(payload).1 == None
    ensures ClosePayload(ExtractCode(payload).0, ExtractReason(payload)) == Payload(payload)
  {
    if payload != [] {
      var code := ExtractCode(payload).0;
      assert code / 0x100 == payload[0] && code % 0x100 == payload[1];
      assert payload == [payload[0], payload[1]] + payload[2..];
    }
  }

  /** close cuts a reason that is too long, at a byte. */
  function Cut(reason: seq<byte>): (r: seq<byte>)
    ensures |r| <= REASON_SIZE && r <= reason
  {
    reason[..Min(|reason|, REASON_SIZE)]
  }

  /** Of a well-formed reason the cut leaves well-formed text exactly when it is not cut,
      or not inside a character: the first byte cut off is no continuation byte. */
  lemma CutReason(reason: seq<byte>)
    requires Utf8.WellFormed(reason)
    ensures Utf8.WellFormed(Cut(reason)) <==> |reason| <= REASON_SIZE || !Utf8.IsTail(reason[REASON_SIZE])
  {
    hide Utf8.WellFormed;
    if |reason| > REASON_SIZE {
      Utf8.CutWellFormed(reason, REASON_SIZE);
    } else {
      assert Cut(reason) == reason;
    }
  }

  /** A reason of 124 bytes that is cut inside its last character. */
  lemma CutInside() returns (reason: seq<byte>)
    ensures Utf8.WellFormed(reason) && |reason| == 124 && !Utf8.WellFormed(Cut(reason))
  {
    hide Utf8.WellFormed;
    var a := seq(122, _ => 0x41);
    var last: seq<byte> := [0xC3, 0xA9];
    reason := a + last;
    LettersWellFormed(122, last);
    CutReason(reason);
  }

  lemma {:induction false} LettersWellFormed(n: nat, last: seq<byte>)
    requires last == [0xC3, 0xA9]
    ensures Utf8.WellFormed(seq(n, _ => 0x41) + last)
  {
    hide Utf8.WellFormed;
    if n == 0 {
      assert seq(0, _ => 0x41) + last == last;
      Utf8.OneCharIsWellFormed(last);
    } else {
      LettersWellFormed(n - 1, last);
      Utf8.CharIsWellFormed([0x41], seq(n - 1, _ => 0x41) + last);
      assert seq(n, _ => 0x41) + last == [0x41] + (seq(n - 1, _ => 0x41) + last);
    }
  }

  // --------------------------------------------------------------- the answer

  /** What send_close_ack sends in answer to a valid close: the same code and reason, or a
      normal close if there was none. */
  function AckOf(payload: seq<byte>): (Code, seq<byte>) {
    if ExtractCode(payload).0 == NO_STATUS then (NORMAL, []) else (ExtractCode(payload).0, ExtractReason(payload))
  }

  /** The answer to a valid close can always be prepared, and echoes it. */
  lemma AckEchoes(payload: seq<byte>)
    requires |payload| <= REASON_SIZE + 2 && ExtractCode(payload).1 == None
    ensures ClosePayload(AckOf(payload).0, AckOf(payload).1) ==
            Payload(if payload == [] then [NORMAL / 0x100, NORMAL % 0x100] else payload)
  {
    CloseCanonical(payload);
    assert [NORMAL / 0x100, NORMAL % 0x100] + [] == [NORMAL / 0x100, NORMAL % 0x100];
  }

  // --------------------------------------------------------------- by numbers

  /** The codes of section 7.4 of RFC 6455 that may be on the wire. */
  predicate MayBeSent(code: Code) { 1000 <= code <= 1003 || 1007 <= code <= 1014 || 3000 <= code <= 4999 }

  /** Exactly these are accepted, with a reason of at most 123 bytes, and no code at all
      without one; the payload is the code's two bytes, high byte first, and the reason. */
  lemma PayloadByNumber(code: Code, reason: seq<byte>)
    ensures ClosePayload(code, reason).Payload? <==>
            (code == 1005 && reason == []) || (MayBeSent(code) && |reason| <= 123)
    ensures MayBeSent(code) && |reason| <= 123 ==>
            ClosePayload(code, reason) == Payload([code / 0x100, code % 0x100] + reason)
    ensures ClosePayload(1005, []) == Payload([])
  {
  }

  /** Why the others are refused. */
  lemma RefusedByNumber(code: Code, reason: seq<byte>)
    ensures code == 1004 || 1016 <= code <= 2999 ==> ClosePayload(code, reason) == Refused(ReservedCode)
    ensures code <= 999 || code in {1006, 1015} || code >= 5000 ==> ClosePayload(code, reason) == Refused(InvalidCode)
    ensures code == 1005 && reason != [] ==> ClosePayload(code, reason) == Refused(ReasonRequiresCode)
    ensures MayBeSent(code) && |reason| > 123 ==> ClosePayload(code, reason) == Refused(ReasonTooBig)
  {
  }

  /** What is read of a payload: no code of none, an error for one byte, and else the code
      of the first two, high byte first, with the error that its number deserves. */
  lemma CodeByNumber(payload: seq<byte>)
    ensures ExtractCode([]) == (1005, None)
    ensures |payload| == 1 ==> ExtractCode(payload) == (1002, Some(BadCode))
    ensures |payload| >= 2 ==>
            var code := payload[0] as int * 0x100 + payload[1];
            ExtractCode(payload) == (code,
              if MayBeSent(code) then None
              else if code == 1004 || 1016 <= code <= 2999 then Some(ReservedCode) else Some(InvalidCode))
    ensures |payload| >= 2 ==> ExtractReason(payload) == payload[2..]
    ensures |payload| < 2 ==> ExtractReason(payload) == []
  {
  }

  /** The codes after which the connection is not kept. */
  lemma TerminalByNumber(code: Code)
    ensures Terminal(code) <==> code in {1002, 1007, 1008, 1009, 1011}
  {
  }

  /** Try again later, 1013, may be sent with any reason that fits; its bytes are 0x03, 0xF5. */
  lemma TryAgainLater(reason: seq<byte>)
    requires |reason| <= 123
    ensures ClosePayload(1013, reason) == Payload([0x03, 0xF5] + reason)
  {
    PayloadByNumber(1013, reason);
  }
}
