// The resumable frame processor of hybi13.hpp, permessage-deflate disabled, and
// the loop of handle_read_frame that drives it.
module Hybi13 {
  import opened Bytes
  import opened Masking
  import opened Frame
  import opened OneShot
  import MaskRoutines
  import Utf8

  /** The states the code assigns. */
  datatype State = HEADER_BASIC | HEADER_EXTENDED | APPLICATION | READY

  /** msg_metadata without its validator, which is an object beside it. */
  datatype Metadata = Metadata(opcode: Opcode, payload: seq<byte>, preparedKey: nat)

  datatype Current = DataMessage | ControlMessage

  // ---------------------------------------------- what each state stands for
  //
  // `raw` is the part of the current frame read so far and `base` the data
  // message under assembly when the frame began.

  ghost predicate AtBasic(raw: seq<byte>, needed: nat, h: BasicHeader) {
    0 < needed <= 2 && |raw| == 2 - needed && (needed == 1 ==> raw[0] == h.b0)
  }

  ghost predicate AtExtended(c: Config, base: Option<Assembly>, raw: seq<byte>, needed: nat, cursor: nat,
                             h: BasicHeader, ext: seq<byte>)
  {
    && |raw| == 2 + cursor
    && h == BasicHeader(raw[0], raw[1])
    && ValidateBasic(h, c.isServer, base.None?) == None
    && cursor + needed == HeaderLength(h) - 2
    && ext == Padded(raw[2..])
  }

  ghost predicate AtApplication(c: Config, base: Option<Assembly>, raw: seq<byte>, needed: nat, h: BasicHeader,
                                preparedKey: nat, message: Assembly)
  {
    var head := ParseHead(c, base, raw);
    && head.Good? && head.h == h
    && |raw| - head.length + needed == head.size
    && preparedKey == PreparedAt(head.key, |raw| - head.length)
    && (!GetMasked(h) ==> head.key == NO_KEY)
    && message == Partial(base, head, raw)
    && !Rejected(message)
  }

  class Processor {
    const config: Config
    var state: State
    var bytesNeeded: nat
    var cursor: nat
    var basicHeader: BasicHeader
    const extendedHeader: array<byte>
    var dataMsg: Option<Metadata>
    var controlMsg: Option<Metadata>
    var current: Current
    const dataValidator: Utf8.Validator
    const controlValidator: Utf8.Validator

    ghost var base: Option<Assembly>
    ghost var raw: seq<byte>

    function DataAssembly(): Option<Assembly>
      reads this, dataValidator
    {
      if dataMsg.None? then None
      else Some(Assembly(dataMsg.value.opcode, dataMsg.value.payload, dataValidator.View()))
    }

    function CurrentMetadata(): Option<Metadata>
      reads this
    {
      if current.DataMessage? then dataMsg else controlMsg
    }

    function CurrentAssembly(): Assembly
      reads this, dataValidator, controlValidator
      requires CurrentMetadata().Some?
    {
      var m := CurrentMetadata().value;
      Assembly(m.opcode, m.payload, if current.DataMessage? then dataValidator.View() else controlValidator.View())
    }

    ghost predicate Shape()
      reads this
    {
      extendedHeader.Length == 12 && dataValidator != controlValidator
    }

    ghost predicate InPayload()
      reads this, dataValidator, controlValidator
    {
      && CurrentMetadata().Some?
      && AtApplication(config, base, raw, bytesNeeded, basicHeader, CurrentMetadata().value.preparedKey,
          CurrentAssembly())
      && current.ControlMessage? == IsControl(GetOpcode(basicHeader))
      && (current.ControlMessage? ==> DataAssembly() == base)
    }

    ghost predicate Valid()
      reads this, extendedHeader, dataValidator, controlValidator
    {
      && Shape()
      && Sound(base)
      && match state
         case HEADER_BASIC =>
           && AtBasic(raw, bytesNeeded, basicHeader)
           && extendedHeader[..] == NO_EXTENSION
           && DataAssembly() == base
         case HEADER_EXTENDED =>
           && AtExtended(config, base, raw, bytesNeeded, cursor, basicHeader, extendedHeader[..])
           && DataAssembly() == base
         case APPLICATION => InPayload()
         case READY =>
           && InPayload() && bytesNeeded == 0 && GetFin(basicHeader)
           && !EndsMidCharacter(basicHeader, CurrentAssembly())
    }

    constructor (c: Config)
      ensures Valid() && state == HEADER_BASIC && config == c && base == None && raw == []
      ensures fresh(extendedHeader) && fresh(dataValidator) && fresh(controlValidator)
    {
      config := c;
      extendedHeader := new byte[12](i => 0);
      dataValidator := new Utf8.Validator();
      controlValidator := new Utf8.Validator();
      state := HEADER_BASIC;
      bytesNeeded := BASIC_HEADER_LENGTH;
      cursor := 0;
      basicHeader := BasicHeader(0x00, 0x00);
      dataMsg, controlMsg := None, None;
      current := DataMessage;
      base, raw := None, [];
      new;
      assert extendedHeader[..] == NO_EXTENSION;
    }

    method ResetHeaders()
      requires Shape()
      modifies this`state, this`bytesNeeded, this`basicHeader, extendedHeader
      ensures state == HEADER_BASIC && bytesNeeded == 2 && basicHeader == BasicHeader(0x00, 0x00)
      ensures extendedHeader[..] == NO_EXTENSION
    {
      state := HEADER_BASIC;
      bytesNeeded := BASIC_HEADER_LENGTH;
      basicHeader := BasicHeader(0x00, 0x00);
      forall i | 0 <= i < extendedHeader.Length { extendedHeader[i] := 0x00; }
      assert extendedHeader[..] == NO_EXTENSION;
    }

    method CopyBasicHeaderBytes(buf: array<byte>, at: nat, len: nat) returns (n: nat)
      requires at + len <= buf.Length && bytesNeeded <= 2
      modifies this`basicHeader, this`bytesNeeded
      ensures n == Min(old(bytesNeeded), len) && bytesNeeded == old(bytesNeeded) - n
      ensures basicHeader.b0 == if n > 0 && old(bytesNeeded) == 2 then buf[at] else old(basicHeader.b0)
      ensures basicHeader.b1 == if n > 0 && bytesNeeded == 0 then buf[at + n - 1] else old(basicHeader.b1)
    {
      if len == 0 || bytesNeeded == 0 { return 0; }
      if len > 1 {
        if bytesNeeded == 2 {
          basicHeader := BasicHeader(buf[at], buf[at + 1]);
          bytesNeeded := bytesNeeded - 2;
          return 2;
        } else {
          basicHeader := basicHeader.(b1 := buf[at]);
          bytesNeeded := bytesNeeded - 1;
          return 1;
        }
      } else {
        if bytesNeeded == 2 {
          basicHeader := basicHeader.(b0 := buf[at]);
          bytesNeeded := bytesNeeded - 1;
          return 1;
        } else {
          basicHeader := basicHeader.(b1 := buf[at]);
          bytesNeeded := bytesNeeded - 1;
          return 1;
        }
      }
    }

    method CopyExtendedHeaderBytes(buf: array<byte>, at: nat, len: nat) returns (n: nat)
      requires Shape() && buf != extendedHeader && at + len <= buf.Length
      requires cursor + bytesNeeded <= 12
      modifies this`cursor, this`bytesNeeded, extendedHeader
      ensures n == Min(old(bytesNeeded), len)
      ensures bytesNeeded == old(bytesNeeded) - n && cursor == old(cursor) + n
      ensures extendedHeader[..] == old(extendedHeader[..cursor]) + buf[at..at + n] + old(extendedHeader[cursor + n..])
    {
      n := Min(bytesNeeded, len);
      forall i | 0 <= i < n { extendedHeader[cursor + i] := buf[at + i]; }
      cursor := cursor + n;
      bytesNeeded := bytesNeeded - n;
    }

    /** Loop branch for HEADER_BASIC. */
    method StepBasic(buf: array<byte>, at: nat, len: nat) returns (n: nat, ec: Option<Error>)
      requires Valid() && state == HEADER_BASIC
      requires 0 < len && at + len <= buf.Length
      modifies this
      ensures 0 < n <= len && base == old(base)
      ensures ec == None ==> Valid() && raw == old(raw) + buf[at..at + n] && bytesNeeded <= 12
      ensures ec == None ==> state == HEADER_EXTENDED || (state == HEADER_BASIC && n == len)
      ensures ec.Some? ==> Fails(config, base, old(raw) + buf[at..at + n], ec.value)
    {
      ghost var before := raw;
      n := CopyBasicHeaderBytes(buf, at, len);
      ec := None;
      raw := raw + buf[at..at + n];
      if bytesNeeded > 0 { return; }
      assert basicHeader == BasicHeader(raw[0], raw[1]);
      ec := ValidateBasic(basicHeader, config.isServer, dataMsg.None?);
      if ec.Some? {
        assert ParseHead(config, base, raw) == Bad(ec.value);
        BadHeadFails(config, base, raw);
        return;
      }
      state := HEADER_EXTENDED;
      cursor := 0;
      bytesNeeded := HeaderLength(basicHeader) - BASIC_HEADER_LENGTH;
      assert Padded(raw[2..]) == NO_EXTENSION;
    }

    /** Loop branch for HEADER_EXTENDED. */
    method StepExtended(buf: array<byte>, at: nat, len: nat) returns (n: nat, ec: Option<Error>)
      requires Valid() && state == HEADER_EXTENDED && buf != extendedHeader
      requires (0 < len || bytesNeeded == 0) && at + len <= buf.Length
      modifies this, extendedHeader, dataValidator, controlValidator
      ensures n <= len && base == old(base)
      ensures ec == None ==> Valid() && raw == old(raw) + buf[at..at + n] && n == Min(old(bytesNeeded), len)
      ensures ec == None ==> state == APPLICATION || (state == HEADER_EXTENDED && 0 < n == len && bytesNeeded > 0)
      ensures ec.Some? ==> Fails(config, base, old(raw) + buf[at..at + n], ec.value)
    {
      n := CopyExtendedHeaderBytes(buf, at, len);
      ec := None;
      ghost var before := raw;
      raw := raw + buf[at..at + n];
      ExtendedGrows(before, buf[at..at + n], extendedHeader[..]);
      if bytesNeeded == 0 { ec := EndHeader(); }
    }

    /** The rest of that branch, once the header is complete. */
    method EndHeader() returns (ec: Option<Error>)
      requires Valid() && state == HEADER_EXTENDED && bytesNeeded == 0
      modifies this, dataValidator, controlValidator
      ensures base == old(base) && raw == old(raw)
      ensures ec == None ==> Valid() && state == APPLICATION
      ensures ec.Some? ==> Fails(config, base, raw, ec.value)
    {
      hide ParseHead, Fails, TooBig;
      HeadComplete(config, base, raw, basicHeader, extendedHeader[..]);
      ec := ValidateExtended(basicHeader, extendedHeader[..]);
      if ec.Some? {
        BadHeadFails(config, base, raw);
        return;
      }
      state := APPLICATION;
      bytesNeeded := GetPayloadSize(basicHeader, extendedHeader[..]);
      ec := BeginPayload(GetMaskingKey(basicHeader, extendedHeader[..]));
    }

    /** Sets up the message the frame belongs to, and its masking key. */
    method BeginPayload(key: MaskingKey) returns (ec: Option<Error>)
      requires Shape() && state == APPLICATION && DataAssembly() == base
      requires Sound(base)
      requires bytesNeeded < TWO_64
      requires (!GetMasked(basicHeader) ==> key == NO_KEY) && |raw| == HeaderLength(basicHeader)
      requires ParseHead(config, base, raw) ==
        if TooBig(config, base, basicHeader, bytesNeeded) then Bad(MessageTooBig)
        else Good(basicHeader, key, bytesNeeded, |raw|)
      modifies this`controlMsg, this`dataMsg, this`current, dataValidator, controlValidator
      ensures ec == None ==> Valid()
      ensures ec.Some? ==> Fails(config, base, raw, ec.value)
    {
      hide ParseHead, AtApplication, Fails, PreparedAt, GetMasked;
      var op := GetOpcode(basicHeader);
      ec := None;
      if IsControl(op) {
        controlMsg := Some(Metadata(op, [], Prepare(key)));
        controlValidator.Reset();
        current := ControlMessage;
      } else {
        if dataMsg.None? {
          if bytesNeeded > config.maxMessageSize {
            BadHeadFails(config, base, raw);
            return Some(MessageTooBig);
          }
          dataMsg := Some(Metadata(op, [], Prepare(key)));
          dataValidator.Reset();
        } else {
          if (|dataMsg.value.payload| + bytesNeeded) % TWO_64 > config.maxMessageSize {
            BadHeadFails(config, base, raw);
            return Some(MessageTooBig);
          }
          dataMsg := Some(dataMsg.value.(preparedKey := Prepare(key)));
        }
        current := DataMessage;
      }
      EntersApplication(config, base, raw, bytesNeeded, basicHeader, key);
    }

    /** Unmasks in place if the frame is masked, and rotates the key. */
    method Unmask(buf: array<byte>, at: nat, len: nat, preparedKey: nat, ghost key: MaskingKey, ghost start: nat)
      returns (next: nat)
      requires at + len <= buf.Length && preparedKey == PreparedAt(key, start)
      requires GetMasked(basicHeader) || key == NO_KEY
      modifies buf
      ensures buf[at..at + len] == Masked(old(buf[at..at + len]), key, start)
      ensures buf[..at] == old(buf[..at]) && buf[at + len..] == old(buf[at + len..])
      ensures next == PreparedAt(key, start + len)
    {
      if GetMasked(basicHeader) {
        next := MaskRoutines.ByteMaskCirc(buf, buf, at, len, preparedKey, key, start);
      } else {
        next := preparedKey;
        MaskedNoKey(buf[at..at + len], start);
        NoKeyPrepared(start, start + len);
      }
    }

    /** Appends unmasked bytes to the current message and validates text. */
    method AppendPayload(bytes: seq<byte>, preparedKey: nat) returns (ec: Option<Error>)
      requires Shape() && bytes != [] && CurrentMetadata().Some?
      modifies this`dataMsg, this`controlMsg, dataValidator, controlValidator
      ensures CurrentMetadata().Some? && CurrentMetadata().value.preparedKey == preparedKey
      ensures CurrentAssembly() == Advance(old(CurrentAssembly()), bytes)
      ensures current.ControlMessage? ==> DataAssembly() == old(DataAssembly())
      ensures ec == if Rejected(CurrentAssembly()) then Some(InvalidUtf8) else None
    {
      var m := CurrentMetadata().value;
      m := m.(payload := m.payload + bytes, preparedKey := preparedKey);
      ec := None;
      var ok := true;
      if current.DataMessage? {
        dataMsg := Some(m);
        if m.opcode == TEXT { ok := dataValidator.Decode(bytes); }
      } else {
        controlMsg := Some(m);
        if m.opcode == TEXT { ok := controlValidator.Decode(bytes); }
      }
      if !ok { ec := Some(InvalidUtf8); }
    }

    method ProcessPayloadBytes(buf: array<byte>, at: nat, len: nat) returns (n: nat, ec: Option<Error>)
      requires Valid() && state == APPLICATION && buf != extendedHeader
      requires 0 < len <= bytesNeeded && at + len <= buf.Length
      modifies this, dataValidator, controlValidator, buf
      ensures buf[..at] == old(buf[..at]) && buf[at + len..] == old(buf[at + len..])
      ensures base == old(base) && state == APPLICATION && basicHeader == old(basicHeader)
      ensures ec == None ==>
        Valid() && n == len && bytesNeeded == old(bytesNeeded) - len && raw == old(raw) + old(buf[at..at + len])
      ensures ec.Some? ==> n == 0 && Fails(config, base, old(raw) + old(buf[at..at + len]), ec.value)
    {
      hide ParseHead, Advance, Rejected, Masked, Partial, PreparedAt, GetMasked;
      ghost var head := ParseHead(config, base, raw);
      ghost var chunk, start := buf[at..at + len], |raw| - head.length;
      var m := CurrentMetadata().value;
      PayloadGrows(config, base, raw, bytesNeeded, basicHeader, m.preparedKey, CurrentAssembly(), chunk);
      var next := Unmask(buf, at, len, m.preparedKey, head.key, start);
      ec := AppendPayload(buf[at..at + len], next);
      if ec.Some? { return 0, ec; }
      bytesNeeded := bytesNeeded - len;
      raw := raw + chunk;
      n := len;
    }

    method FinalizeMessage() returns (ec: Option<Error>)
      requires Valid() && state == APPLICATION && bytesNeeded == 0 && GetFin(basicHeader)
      modifies this`state
      ensures ec == None ==> Valid() && state == READY
      ensures ec.Some? ==> Fails(config, base, raw, ec.value)
    {
      if GetOpcode(basicHeader) == TEXT {
        var validator := if current.DataMessage? then dataValidator else controlValidator;
        var complete := validator.Complete();
        if !complete {
          EndsMidCharacterFails(config, base, raw);
          return Some(InvalidUtf8);
        }
      }
      state := READY;
      ec := None;
    }

    /** The end of a frame that is not the last of its message. */
    method EndFragment()
      requires Valid() && state == APPLICATION && bytesNeeded == 0 && !GetFin(basicHeader)
      modifies this, extendedHeader
      ensures Valid() && state == HEADER_BASIC && bytesNeeded == 2
      ensures SameFuture(config, old(base), old(raw), base, raw) && raw == []
    {
      FragmentContinues(config, base, raw);
      OnlyDataIsFragmented(config, base, raw);
      MessageOpcode(config, base, raw, bytesNeeded, basicHeader, CurrentMetadata().value.preparedKey,
          CurrentAssembly());
      ghost var message := CurrentAssembly();
      ResetHeaders();
      base, raw := Some(message), [];
    }

    /** Loop branch for APPLICATION. */
    method StepApplication(buf: array<byte>, at: nat, len: nat) returns (n: nat, ec: Option<Error>)
      requires Valid() && state == APPLICATION && buf != extendedHeader
      requires (0 < len || bytesNeeded == 0) && at + len <= buf.Length
      modifies this, extendedHeader, dataValidator, controlValidator, buf
      ensures n <= len
      ensures ec == None ==> buf[..at] == old(buf[..at]) && buf[at + n..] == old(buf[at + n..])
      ensures ec == None ==> Valid() && n == Min(old(bytesNeeded), len)
      ensures ec == None ==> SameFuture(config, old(base), old(raw) + old(buf[at..at + n]), base, raw)
      ensures ec == None ==> state in {READY, HEADER_BASIC} || (state == APPLICATION && bytesNeeded > 0 && 0 < n == len)
      ensures ec.Some? ==> Fails(config, old(base), old(raw) + old(buf[at..at + len]), ec.value)
    {
      hide ParseHead, AtApplication, SameFuture, Fails, Parse;
      n, ec := 0, None;
      var bytesToProcess := Min(bytesNeeded, len);
      ghost var base0, raw0, input := base, raw, buf[at..at + len];
      assert raw0 + input[..0] == raw0;
      if bytesToProcess > 0 {
        assert input[..bytesToProcess] == buf[at..at + bytesToProcess];
        n, ec := ProcessPayloadBytes(buf, at, bytesToProcess);
        if ec.Some? {
          FailsExtends(config, base0, raw0, input, bytesToProcess, ec.value);
          return;
        }
      }
      SameFutureReflexive(config, base, raw);
      if bytesNeeded > 0 { return; }
      if GetFin(basicHeader) {
        ec := FinalizeMessage();
        if ec.Some? { FailsExtends(config, base0, raw0, input, n, ec.value); }
      } else {
        EndFragment();
      }
    }

    /** One iteration of the loop of consume. */
    method Step(buf: array<byte>, at: nat, len: nat) returns (n: nat, ec: Option<Error>)
      requires Valid() && state != READY && buf != extendedHeader
      requires (0 < len || bytesNeeded == 0) && at + len <= buf.Length
      modifies this, extendedHeader, dataValidator, controlValidator, buf
      ensures n <= len
      ensures ec == None ==> Valid() && buf[..at] == old(buf[..at]) && buf[at + n..] == old(buf[at + n..])
      ensures ec == None ==> SameFuture(config, old(base), old(raw) + old(buf[at..at + n]), base, raw)
      ensures ec == None ==> n > 0 || (old(bytesNeeded) == 0 && Rank(state) < Rank(old(state)))
      ensures ec.Some? ==> Fails(config, old(base), old(raw) + old(buf[at..at + len]), ec.value)
    {
      hide ParseHead, AtApplication, AtExtended, SameFuture, Fails, Parse;
      ghost var base0, raw0, input := base, raw, buf[at..at + len];
      if state == HEADER_BASIC {
        n, ec := StepBasic(buf, at, len);
      } else if state == HEADER_EXTENDED {
        n, ec := StepExtended(buf, at, len);
      } else {
        n, ec := StepApplication(buf, at, len);
        return;
      }
      SliceOfSlice(buf[..], at, len, n);
      if ec.Some? {
        FailsExtends(config, base0, raw0, input, n, ec.value);
      } else {
        SameFutureReflexive(config, base, raw);
      }
    }

    static lemma SliceOfSlice(s: seq<byte>, at: nat, len: nat, n: nat)
      requires n <= len && at + len <= |s|
      ensures s[at..at + len][..n] == s[at..at + n]
    {
    }

    lemma BasicNeedsBytes()
      requires Valid()
      ensures state == HEADER_BASIC ==> bytesNeeded > 0
      ensures state == READY ==> bytesNeeded == 0
    {
    }

    method Consume(buf: array<byte>, at: nat, len: nat) returns (p: nat, ec: Option<Error>)
      requires Valid() && buf != extendedHeader && at + len <= buf.Length
      modifies this, extendedHeader, dataValidator, controlValidator, buf
      ensures p <= len
      ensures ec == None ==> Valid() && (state == READY || (p == len && bytesNeeded > 0))
      ensures ec == None && len > 0 && old(bytesNeeded) > 0 ==> p > 0
      ensures ec == None ==> buf[..at] == old(buf[..at]) && buf[at + p..] == old(buf[at + p..])
      ensures ec == None ==> SameFuture(config, old(base), old(raw) + old(buf[at..at + p]), base, raw)
      ensures ec.Some? ==> Fails(config, old(base), old(raw) + old(buf[at..at + len]), ec.value)
    {
      hide Valid, SameFuture, Fails, Parse;
      p, ec := 0, None;
      BasicNeedsBytes();
      ghost var base0, raw0, whole := base, raw, buf[..];
      assert raw0 + whole[at..at] == raw0;
      SameFutureReflexive(config, base, raw);
      while state != READY && (p < len || bytesNeeded == 0)
        invariant p <= len && Valid() && ec == None
        invariant state == HEADER_BASIC ==> bytesNeeded > 0
        invariant p == 0 && old(bytesNeeded) > 0 ==> state == old(state) && bytesNeeded > 0
        invariant buf[..at] == whole[..at] && buf[at + p..] == whole[at + p..]
        invariant SameFuture(config, base0, raw0 + whole[at..at + p], base, raw)
        decreases len - p, Rank(state)
      {
        ghost var base1, raw1, now := base, raw, buf[..];
        var n;
        n, ec := Step(buf, at + p, len - p);
        if ec.Some? {
          FailsInPlace(config, base0, raw0, whole, now, at, p, len, base1, raw1, ec.value);
          return;
        }
        BasicNeedsBytes();
        ConsumedMore(config, base0, raw0, whole, now, buf[..], at, p, base1, raw1, n, base, raw);
        p := p + n;
      }
    }

    /** Between reads nothing is left to deliver. */
    lemma Waiting()
      requires Valid() && state != READY && bytesNeeded > 0
      ensures Parse(config, base, raw) == NOTHING
    {
      IncompleteIsNothing(config, base, raw);
    }

    method GetMessage() returns (m: Option<Message>)
      requires Valid()
      modifies this, extendedHeader
      ensures old(state) != READY ==> m == None && Valid() && state == old(state) && bytesNeeded == old(bytesNeeded)
      ensures old(state) != READY ==> base == old(base) && raw == old(raw)
      ensures old(state) == READY ==> m.Some? && Valid() && state == HEADER_BASIC && bytesNeeded > 0
      ensures old(state) == READY ==> Delivers(config, old(base), old(raw), [m.value], base, raw)
    {
      hide ParseHead, Parse, Delivers, AtApplication, EndsMidCharacter, Rejected;
      if state != READY { return None; }
      ReadyDelivers(config, base, raw, basicHeader, CurrentMetadata().value.preparedKey, CurrentAssembly());
      m := Some(Deliver(CurrentAssembly()));
      ghost var after := AfterFinal(base, basicHeader);
      if current.DataMessage? { dataMsg := None; } else { controlMsg := None; }
      if IsControl(m.value.opcode) {
        controlMsg := None;
      } else {
        dataMsg := None;
      }
      ResetHeaders();
      base, raw := after, [];
    }

    /** The loop of handle_read_frame over the bytes of one read. */
    method ReadFrames(buf: array<byte>, len: nat) returns (messages: seq<Message>, ec: Option<Error>)
      requires Valid() && state != READY && bytesNeeded > 0 && buf != extendedHeader && len <= buf.Length
      modifies this, extendedHeader, dataValidator, controlValidator, buf
      ensures ec == None ==> Valid() && state != READY && bytesNeeded > 0
      ensures ec == None ==> Delivers(config, old(base), old(raw) + old(buf[..len]), messages, base, raw)
      ensures ec.Some? ==> FailsAfter(config, old(base), old(raw) + old(buf[..len]), messages, ec.value)
    {
      hide Valid, SameFuture, Fails, Delivers, FailsAfter, Parse;
      messages, ec := [], None;
      var p := 0;
      ghost var base0, raw0, whole := base, raw, buf[..];
      assert raw0 + whole[..0] == raw0;
      DeliversNothing(config, base, raw);
      while p < len
        invariant p <= len && Valid() && ec == None && state != READY && bytesNeeded > 0
        invariant buf[p..] == whole[p..]
        invariant Delivers(config, base0, raw0 + whole[..p], messages, base, raw)
      {
        ghost var base1, raw1, now := base, raw, buf[..];
        var n;
        n, ec := Consume(buf, p, len - p);
        if ec.Some? {
          FailedRead(config, base0, raw0, whole, now, p, len, messages, base1, raw1, ec.value);
          return;
        }
        ReadMore(config, base0, raw0, whole, now, buf[..], p, messages, base1, raw1, n, base, raw);
        p := p + n;
        if state == READY {
          ghost var base2, raw2 := base, raw;
          var m := GetMessage();
          assert raw0 + whole[..p] + [] == raw0 + whole[..p] && raw2 + [] == raw2;
          DeliversConcat(config, base0, raw0 + whole[..p], messages, base2, raw2, [], [m.value], base, raw);
          messages := messages + [m.value];
        } else {
          BasicNeedsBytes();
        }
      }
    }
  }

  /** The futures before and after an iteration compose, and the buffer is intact
      outside what was consumed. */
  lemma ConsumedMore(c: Config, b0: Option<Assembly>, s0: seq<byte>, whole: seq<byte>, now: seq<byte>, after: seq<byte>,
                     at: nat, p: nat, b1: Option<Assembly>, s1: seq<byte>, n: nat, b2: Option<Assembly>, s2: seq<byte>)
    requires |whole| == |now| == |after| && at + p + n <= |whole|
    requires now[..at] == whole[..at] && now[at + p..] == whole[at + p..]
    requires after[..at + p] == now[..at + p] && after[at + p + n..] == now[at + p + n..]
    requires SameFuture(c, b0, s0 + whole[at..at + p], b1, s1)
    requires SameFuture(c, b1, s1 + now[at + p..at + p + n], b2, s2)
    ensures after[..at] == whole[..at] && after[at + (p + n)..] == whole[at + (p + n)..]
    ensures SameFuture(c, b0, s0 + whole[at..at + (p + n)], b2, s2)
  {
    hide SameFuture;
    var input := whole[at..at + (p + n)];
    assert input[..p] == whole[at..at + p];
    assert input[..p + n] == input;
    assert input[p..p + n] == whole[at + p..][..n] == now[at + p..at + p + n];
    SameFutureStep(c, b0, s0, input, p, b1, s1, n, b2, s2);
    assert after[..at] == after[..at + p][..at] && whole[..at] == now[..at + p][..at];
    assert after[at + (p + n)..] == now[at + p..][n..] && whole[at + (p + n)..] == whole[at + p..][n..];
  }

  lemma FailsInPlace(c: Config, b0: Option<Assembly>, s0: seq<byte>, whole: seq<byte>, now: seq<byte>,
                     at: nat, p: nat, len: nat, b1: Option<Assembly>, s1: seq<byte>, e: Error)
    requires |whole| == |now| && p <= len && at + len <= |whole| && now[at + p..] == whole[at + p..]
    requires SameFuture(c, b0, s0 + whole[at..at + p], b1, s1)
    requires Fails(c, b1, s1 + now[at + p..at + p + (len - p)], e)
    ensures Fails(c, b0, s0 + whole[at..at + len], e)
  {
    hide SameFuture, Fails;
    var input := whole[at..at + len];
    assert input[..p] == whole[at..at + p];
    assert input[p..] == whole[at + p..][..len - p] == now[at + p..at + p + (len - p)];
    FailsLater(c, b0, s0, input, p, b1, s1, e);
  }

  function Rank(s: State): nat {
    match s case HEADER_EXTENDED => 2 case APPLICATION => 1 case _ => 0
  }

  /** A frame without FIN that passed the checks carries data. */
  lemma OnlyDataIsFragmented(c: Config, base: Option<Assembly>, raw: seq<byte>)
    requires var head := ParseHead(c, base, raw); head.Good? && !GetFin(head.h)
    ensures !IsControl(GetOpcode(ParseHead(c, base, raw).h))
  {
  }

  lemma MessageOpcode(c: Config, base: Option<Assembly>, raw: seq<byte>, needed: nat, h: BasicHeader, preparedKey: nat,
                      message: Assembly)
    requires AtApplication(c, base, raw, needed, h, preparedKey, message) && Sound(base)
    ensures IsControl(message.opcode) == IsControl(GetOpcode(h))
  {
  }

  lemma ReadyDelivers(c: Config, base: Option<Assembly>, raw: seq<byte>, h: BasicHeader, preparedKey: nat,
                      message: Assembly)
    requires AtApplication(c, base, raw, 0, h, preparedKey, message) && Sound(base)
    requires GetFin(h) && !EndsMidCharacter(h, message)
    ensures Delivers(c, base, raw, [Deliver(message)], AfterFinal(base, h), [])
    ensures IsControl(message.opcode) == IsControl(GetOpcode(h)) && Sound(AfterFinal(base, h))
  {
    MessageOpcode(c, base, raw, 0, h, preparedKey, message);
    FinalFrame(c, base, raw);
  }

  lemma NoKeyPrepared(m: nat, n: nat)
    ensures PreparedAt(NO_KEY, m) == PreparedAt(NO_KEY, n)
  {
    hide Prepare;
    assert Rotated(NO_KEY, m) == NO_KEY == Rotated(NO_KEY, n);
  }

  /** What more payload does: the message advances, or its text is rejected. */
  lemma PayloadGrows(c: Config, base: Option<Assembly>, raw: seq<byte>, needed: nat, h: BasicHeader,
                     preparedKey: nat, message: Assembly, chunk: seq<byte>)
    requires AtApplication(c, base, raw, needed, h, preparedKey, message) && |chunk| <= needed
    ensures var head := ParseHead(c, base, raw);
      var start := |raw| - head.length;
      var grown := Advance(message, Masked(chunk, head.key, start));
      if Rejected(grown) then Fails(c, base, raw + chunk, InvalidUtf8)
      else AtApplication(c, base, raw + chunk, needed - |chunk|, h, PreparedAt(head.key, start + |chunk|), grown)
  {
    hide Advance, Fails, PreparedAt, GetMasked;
    var head := ParseHead(c, base, raw);
    HeadStable(c, base, raw, chunk);
    PartialConcat(base, head, raw, chunk);
    var grown := Advance(message, Masked(chunk, head.key, |raw| - head.length));
    assert grown == Partial(base, head, raw + chunk);
    if Rejected(grown) { RejectedFails(c, base, raw + chunk); }
  }

  /** Before any payload the message stands where the frame found it. */
  lemma EntersApplication(c: Config, base: Option<Assembly>, raw: seq<byte>, size: uint64, h: BasicHeader,
                          key: MaskingKey)
    requires ParseHead(c, base, raw) == Good(h, key, size, |raw|)
    requires (!GetMasked(h) ==> key == NO_KEY) && Sound(base)
    ensures AtApplication(c, base, raw, size, h, Prepare(key), Start(base, h))
  {
    var a := Start(base, h);
    assert Masked(raw[|raw|..], key, 0) == [];
    assert a.payload + [] == a.payload;
    assert Rotated(key, 0) == key;
  }

  lemma HeadComplete(c: Config, base: Option<Assembly>, raw: seq<byte>, h: BasicHeader, ext: ExtendedHeader)
    requires |raw| == HeaderLength(h) && h == BasicHeader(raw[0], raw[1])
    requires ValidateBasic(h, c.isServer, base.None?) == None && ext == Padded(raw[2..])
    ensures ParseHead(c, base, raw) ==
      (if ValidateExtended(h, ext).Some? then Bad(ValidateExtended(h, ext).value)
       else if TooBig(c, base, h, GetPayloadSize(h, ext)) then Bad(MessageTooBig)
       else Good(h, GetMaskingKey(h, ext), GetPayloadSize(h, ext), |raw|))
  {
    assert raw[2..HeaderLength(h)] == raw[2..];
  }

  /** The extended header bytes read so far, with zeros behind them. */
  lemma ExtendedGrows(before: seq<byte>, more: seq<byte>, ext: seq<byte>)
    requires 2 <= |before| && |before| + |more| <= 14
    requires ext == Padded(before[2..])[..|before| - 2] + more + Padded(before[2..])[|before| - 2 + |more|..]
    ensures ext == Padded((before + more)[2..])
  {
  }

  lemma ReadMore(c: Config, b0: Option<Assembly>, s0: seq<byte>, whole: seq<byte>, now: seq<byte>, after: seq<byte>,
                 p: nat, messages: seq<Message>, b1: Option<Assembly>, s1: seq<byte>, n: nat,
                 b2: Option<Assembly>, s2: seq<byte>)
    requires |whole| == |now| == |after| && p + n <= |whole|
    requires now[p..] == whole[p..] && after[p + n..] == now[p + n..]
    requires Delivers(c, b0, s0 + whole[..p], messages, b1, s1)
    requires SameFuture(c, b1, s1 + now[p..p + n], b2, s2)
    ensures after[p + n..] == whole[p + n..]
    ensures Delivers(c, b0, s0 + whole[..p + n], messages, b2, s2)
  {
    hide Delivers, SameFuture;
    var chunk := now[p..p + n];
    assert chunk == now[p..][..n] == whole[p..][..n];
    assert s0 + whole[..p] + chunk == s0 + whole[..p + n];
    SameFutureDelivers(c, b1, s1 + chunk, b2, s2);
    DeliversConcat(c, b0, s0 + whole[..p], messages, b1, s1, chunk, [], b2, s2);
    assert messages + [] == messages;
    assert after[p + n..] == now[p..][n..] && whole[p + n..] == whole[p..][n..];
  }

  lemma FailedRead(c: Config, b0: Option<Assembly>, s0: seq<byte>, whole: seq<byte>, now: seq<byte>, p: nat, len: nat,
                   messages: seq<Message>, b1: Option<Assembly>, s1: seq<byte>, e: Error)
    requires |whole| == |now| && p <= len <= |whole| && now[p..] == whole[p..]
    requires Delivers(c, b0, s0 + whole[..p], messages, b1, s1)
    requires Fails(c, b1, s1 + now[p..p + (len - p)], e)
    ensures FailsAfter(c, b0, s0 + whole[..len], messages, e)
  {
    hide Delivers, Fails, FailsAfter;
    var chunk := now[p..p + (len - p)];
    assert chunk == now[p..][..len - p] == whole[p..][..len - p];
    assert s0 + whole[..p] + chunk == s0 + whole[..len];
    FailsDeliversNothing(c, b1, s1 + chunk, e);
    FailsAfterConcat(c, b0, s0 + whole[..p], messages, b1, s1, chunk, [], e);
    assert messages + [] == messages;
  }

  /** Chunk invariance: however the stream is cut into reads, the processor delivers
      the messages and ends in the error of the one-shot parser on the whole stream.
      Reading stops at the first error. */
  method ReadChunks(config: Config, chunks: seq<seq<byte>>) returns (messages: seq<Message>, ec: Option<Error>)
    ensures Outcome(messages, ec) == Parse(config, None, Concat(chunks))
  {
    hide SameFuture, Fails, Delivers, FailsAfter, Parse;
    var p := new Processor(config);
    messages, ec := [], None;
    DeliversNothing(config, None, []);
    var i := 0;
    while i < |chunks|
      invariant i <= |chunks| && ec == None
      invariant p.Valid() && p.state != READY && p.bytesNeeded > 0 && p.config == config
      invariant fresh(p) && fresh(p.extendedHeader) && fresh(p.dataValidator) && fresh(p.controlValidator)
      invariant Delivers(config, None, Concat(chunks[..i]), messages, p.base, p.raw)
    {
      var chunk := chunks[i];
      var buf := new byte[|chunk|](j requires 0 <= j < |chunk| => chunk[j]);
      assert buf[..|chunk|] == chunk;
      ghost var base1, raw1 := p.base, p.raw;
      var more;
      more, ec := p.ReadFrames(buf, |chunk|);
      ConcatSnoc(chunks, i);
      if ec.Some? {
        FailsAfterConcat(config, None, Concat(chunks[..i]), messages, base1, raw1, chunk, more, ec.value);
        messages := messages + more;
        ConcatSplit(chunks, i + 1);
        FailsAfterAt(config, None, Concat(chunks[..i + 1]), messages, ec.value, Concat(chunks[i + 1..]));
        return;
      }
      DeliversConcat(config, None, Concat(chunks[..i]), messages, base1, raw1, chunk, more, p.base, p.raw);
      messages := messages + more;
      i := i + 1;
    }
    assert chunks[..i] == chunks;
    p.Waiting();
    DeliversAt(config, None, Concat(chunks), messages, p.base, p.raw);
  }
}
