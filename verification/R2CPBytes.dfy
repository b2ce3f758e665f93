// Packets by their bytes: what every outcome of the parser looks like on the wire, and
// the numbers that commands and parameters have there.
module R2CPBytes {
  import opened Bytes
  import opened R2CPDictionary
  import opened R2CPSpec
  import opened R2CPFormat
  import opened R2CPTheorems

  /** Four bytes, most significant first. */
  function Four(n: uint32): seq<byte> { [n / 0x100_0000, n / 0x1_0000 % 0x100, n / 0x100 % 0x100, n % 0x100] }

  lemma WordIsFour(n: uint32)
    ensures Word32(n) == Four(n)
  {
    hide ToBigEndian, ByteAt;
    WordBytes(n);
    ShiftByte(n, 0);
    ShiftByte(n, 1);
    ShiftByte(n, 2);
    var n1: nat := n / 0x100;
    var n2: nat := n / 0x1_0000;
    assert n1 / 0x100 == n2 && n2 / 0x100 == n / 0x100_0000;
    ShiftByte(n1, 0);
    ShiftByte(n1, 1);
    ShiftByte(n2, 0);
    ShiftByte(n / 0x100_0000, 0);
  }

  // ---------------------------------------------------- the three outcomes

  /** A packet without a body: one of the two magic words, and size zero. */
  predicate IsEmptyPacket(p: seq<byte>) {
    p == [0x52, 0x32, 0x43, 0x50, 0, 0, 0, 0] || p == [0x52, 0x52, 0x43, 0x50, 0, 0, 0, 0]
  }

  /** A list of commands whose contents pass. */
  ghost predicate IsAcceptable(p: seq<byte>) {
    exists magic: uint32, es: seq<Entry> :: IsPacket(p, magic, es) && AllAccepted(es)
  }

  /** The first pass accepts exactly these, and below 4 GiB never throws. */
  lemma AcceptedExactly(p: seq<byte>)
    requires |p| < TWO_32
    ensures Validate(p) == Ok(IsEmptyPacket(p) || IsAcceptable(p))
  {
    hide Validate, AllAccepted, IsEmptyPacket;
    NeverThrows(p);
    if Validate(p) == Ok(true) {
      AcceptedLength(p);
      if |p| == 8 {
        EmptyAccepted(p);
      } else {
        var magic, es := AcceptedIsPacket(p);
        assert IsPacket(p, magic, es);
      }
    }
    EmptyAccepted(p);
    forall magic: uint32, es: seq<Entry> | IsPacket(p, magic, es) && AllAccepted(es) ensures Validate(p) == Ok(true) {
      PacketIsAccepted(magic, es);
    }
  }

  lemma NeverThrows(p: seq<byte>)
    requires |p| < TWO_32
    ensures Validate(p) in {Ok(true), Ok(false)}
  {
    hide ReadWord, ReadBytes, ValidateCommands;
    NoWrap(|p|);
    if |p| >= 8 {
      ReadWordIff(p, 0);
      ReadWordIff(p, 4);
      var size := ReadWord(p, 4).value;
      ReadBytesIff(p, 8, size);
      if |p| == Wrap(MIN_PACKET_SIZE + size) {
        BodyFits(|p|, size);
      }
    }
  }

  lemma BodyFits(n: nat, size: uint32)
    requires 8 <= n < TWO_32 && n == Wrap(MIN_PACKET_SIZE + size)
    ensures n == 8 + size
  {
  }

  lemma EmptyAccepted(p: seq<byte>)
    ensures IsEmptyPacket(p) ==> Validate(p) == Ok(true)
    ensures |p| == 8 && Validate(p) == Ok(true) ==> IsEmptyPacket(p)
  {
    if |p| == 8 {
      hide ReadWord, ReadBytes, ValidateCommands, Word32, Four, Wrap;
      NoWrap(8);
      ReadWordIff(p, 0);
      ReadWordIff(p, 4);
      var magic, size := ReadWord(p, 0).value, ReadWord(p, 4).value;
      assert p == p[0..4] + p[4..8];
      WordIsFour(magic);
      WordIsFour(size);
      Numbers(p, magic, size);
      EightBytes(p);
    }
  }

  lemma Numbers(p: seq<byte>, magic: uint32, size: uint32)
    requires |p| == 8 && p[0..4] == Four(magic) && p[4..8] == Four(size)
    ensures IsEmptyPacket(p) <==> magic in {R2CP_MAGIC, RRCP_MAGIC} && size == 0
  {
    assert p[0] == p[0..4][0] && p[1] == p[0..4][1] && p[2] == p[0..4][2] && p[3] == p[0..4][3];
    assert p[4] == p[4..8][0] && p[5] == p[4..8][1] && p[6] == p[4..8][2] && p[7] == p[4..8][3];
    assert p == [p[0], p[1], p[2], p[3], p[4], p[5], p[6], p[7]];
  }

  lemma EightBytes(p: seq<byte>)
    requires |p| == 8 && ReadWord(p, 0).Got? && ReadWord(p, 0).offset == 4 && ReadWord(p, 4).Got?
    ensures Validate(p) == Ok(true) <==>
            ReadWord(p, 0).value in {R2CP_MAGIC, RRCP_MAGIC} && ReadWord(p, 4).value == 0
  {
    hide ReadWord, ReadBytes, ValidateCommands;
    NoWrap(8);
    if ReadWord(p, 4).value > 0 && 8 == Wrap(8 + ReadWord(p, 4).value) {
      BodyFits(8, ReadWord(p, 4).value);
    }
  }

  /** invalid_argument is thrown for every other packet, and for no more. */
  lemma RefusedExactly(p: seq<byte>)
    requires |p| < TWO_32
    ensures Parse(p) == InvalidArgument <==> !IsEmptyPacket(p) && !IsAcceptable(p)
  {
    hide Validate, ParseCommandsFrom, ReadWord, IsEmptyPacket, IsAcceptable;
    AcceptedExactly(p);
    if Validate(p) == Ok(true) {
      NotInvalid(p);
    }
  }

  lemma NotInvalid(p: seq<byte>)
    requires |p| < TWO_32 && Validate(p) == Ok(true)
    ensures Parse(p) != InvalidArgument
  {
    hide Validate, Parse;
    AcceptedLength(p);
    if |p| == 8 {
      EmptyBodyThrows(p);
    } else {
      var magic, es := TwoPassAgreement(p);
    }
  }

  /** All outcomes: refused, thrown on, or the commands that the list denotes. */
  lemma EveryOutcome(p: seq<byte>)
    requires |p| < TWO_32
    ensures if !IsEmptyPacket(p) && !IsAcceptable(p) then Parse(p) == InvalidArgument
            else if IsEmptyPacket(p) || PacketWraps(p) then Parse(p) == OutOfRange
            else
              && Parse(p).Ok?
              && (forall magic: uint32, es: seq<Entry> :: IsPacket(p, magic, es) && AllAccepted(es) ==>
                    Kept(es, Parse(p).value))
  {
    hide Parse, Validate, IsAcceptable, PacketWraps, AllAccepted, Kept, IsPacket;
    RefusedExactly(p);
    AcceptedExactly(p);
    if IsEmptyPacket(p) || IsAcceptable(p) {
      ThrowsExactly(p);
      EmptyLength(p);
      forall magic: uint32, es: seq<Entry> | IsPacket(p, magic, es) && AllAccepted(es) && Parse(p).Ok?
        ensures Kept(es, Parse(p).value)
      {
        PacketKept(p, magic, es);
      }
    }
  }

  lemma EmptyLength(p: seq<byte>)
    requires |p| < TWO_32 && Validate(p) == Ok(true)
    ensures IsEmptyPacket(p) <==> |p| == MIN_PACKET_SIZE
  {
    hide Validate;
    EmptyAccepted(p);
  }

  lemma PacketKept(p: seq<byte>, magic: uint32, es: seq<Entry>)
    requires |p| < TWO_32 && IsPacket(p, magic, es) && AllAccepted(es) && Parse(p).Ok?
    ensures Kept(es, Parse(p).value)
  {
    hide Parse, AllAccepted, EntriesBytes, Word32, Kept, ParseEntries;
    ParsePacket(magic, es);
    EntriesAreShorter(es, |p|);
    EntriesOutcome(es);
  }

  // ------------------------------------------------------ what contents pass

  /** Every parameter code. */
  function AnyCode(): set<uint32> { set c: uint32 | IsCode(c) }

  predicate IsCode(c: nat) { c < TWO_32 }

  /** The content that the first pass lets through, by the kind of its command; where the
      parameters are not a list, an offset wraps. */
  lemma ContentAccepted(code: uint32, content: seq<byte>)
    requires Within(content)
    ensures match GetContentType(code)
      case NoContent => ValidateContent(code, content) == Accepted <==> content == []
      case DirectContent => ValidateContent(code, content) == Accepted
      case ParameterizedContent =>
        && ((exists ps :: Sized(ps) && content == ListBytes(ps)) ==> ValidateContent(code, content) == Accepted)
        && (ValidateContent(code, content) == Accepted ==>
              (exists ps :: Sized(ps) && content == ListBytes(ps)) ||
              (exists count: uint32 :: |content| >= 4 && content[..4] == Word32(count) &&
                 SizeWraps(content, 4, count, AnyCode())))
  {
    hide ReadWord, Word32, ValidateParametersFrom, ParseParametersFrom, EntriesBytes, SizeWraps, AllAllowed;
    NoWrap(|content|);
    if GetContentType(code) == ParameterizedContent {
      forall ps | Sized(ps) && content == ListBytes(ps) ensures ValidateContent(code, content) == Accepted {
        assert content[..4] == Word32(|ps|) && content[4..] == EntriesBytes(ps);
        CountAt(content, |ps|);
        ParametersAreReturned(content, 4, ps, AnyCode());
      }
      if ValidateContent(code, content) == Accepted {
        ReadWordIff(content, 0);
        var count := ReadWord(content, 0).value;
        CountAt(content, count);
        ThrowsIffWraps(content, 4, count, AnyCode());
        NeverUndefined(content, 4, count);
        if ParseParametersFrom(content, 4, count, AnyCode()).Ok? {
          ReturnedParametersAreTheContent(content, 4, count, AnyCode());
          assert content == content[..4] + content[4..];
        }
      }
    }
  }

  lemma {:induction false} NeverUndefined(content: seq<byte>, offset: uint32, count: nat)
    ensures ParseParametersFrom(content, offset, count, AnyCode()) != InvalidArgument
    decreases count
  {
    hide ReadWord, ReadBytes;
    if count > 0 {
      var code := ReadWord(content, offset);
      if code.Got? {
        assert code.value in AnyCode();
        var size := ReadWord(content, code.offset);
        if size.Got? {
          var data := ReadBytes(content, size.offset, size.value);
          if data.Got? {
            NeverUndefined(content, data.offset, count - 1);
          }
        }
      }
    }
  }

  // --------------------------------------------------------- by numbers

  /** The packet of one command, written out. */
  function OnePacket(code: uint32, data: seq<byte>): seq<byte>
    requires |data| + 20 < TWO_32
  {
    [0x52, 0x32, 0x43, 0x50] + Four(12 + |data|) + ([0, 0, 0, 1] + (Four(code) + Four(|data|) + data))
  }

  /** It is the packet of that command. */
  lemma OneCommandBytes(code: uint32, data: seq<byte>)
    requires |data| + 20 < TWO_32
    ensures Sized([Entry(code, data)]) && |ListBytes([Entry(code, data)])| == 12 + |data|
    ensures Packet(R2CP_MAGIC, [Entry(code, data)]) == OnePacket(code, data)
  {
    hide Word32, Four, EntriesBytes, Sized;
    var e := Entry(code, data);
    NoEntries();
    SizedCons(e, []);
    assert [e] + [] == [e];
    assert EntryBytes(e) + [] == EntryBytes(e);
    WordIsFour(R2CP_MAGIC);
    WordIsFour(12 + |data|);
    WordIsFour(1);
    WordIsFour(code);
    WordIsFour(|data|);
    FourOf();
  }

  lemma FourOf()
    ensures Four(R2CP_MAGIC) == [0x52, 0x32, 0x43, 0x50] && Four(RRCP_MAGIC) == [0x52, 0x52, 0x43, 0x50]
    ensures Four(1) == [0, 0, 0, 1]
  {
  }

  /** Commands 1, 2, 3 and 7 have no content; 0, 9 and all above are unknown, and skipped
      without content. Content makes the packet invalid. */
  lemma PlainCommand(code: uint32, data: seq<byte>)
    requires |data| + 20 < TWO_32 && code !in {4, 5, 6, 8}
    ensures Parse(OnePacket(code, data)) ==
            if data != [] then InvalidArgument else Ok(if code in {1, 2, 3, 7} then [Command(code, [])] else [])
  {
    hide OnePacket, Parse, Packet, ListBytes, Sized, ValidateContent, ParseContent;
    OneCommandBytes(code, data);
    OneOutcome(code, data);
    PlainContent(code, data);
  }

  /** Command 8 has any content as it is, and the parameter code 0. */
  lemma PrintCommand(data: seq<byte>)
    requires |data| + 20 < TWO_32
    ensures Parse(OnePacket(8, data)) == Ok([Command(8, [Entry(0, data)])])
  {
    hide OnePacket, Parse, Packet, ListBytes, Sized, ValidateContent, ParseContent;
    OneCommandBytes(8, data);
    OneOutcome(8, data);
    PlainContent(8, data);
  }

  ghost predicate AreParameters(ps: seq<Entry>) {
    forall i :: 0 <= i < |ps| ==> ps[i].code in {1, 2, 3, 5, 6, 7, 8, 9, 10}
  }

  /** Commands 4, 5 and 6 have a list of parameters, with the codes 1, 2, 3 and 5 to 10. */
  lemma ParameterCommand(code: uint32, ps: seq<Entry>)
    requires code in {4, 5, 6} && Sized(ps) && |ListBytes(ps)| + 20 < TWO_32
    ensures Parse(OnePacket(code, ListBytes(ps))) ==
            Ok(if AreParameters(ps) then [Command(code, ps)] else [])
  {
    hide AreParameters, OnePacket, Parse, Packet, ListBytes, Sized, AllAllowed;
    hide GetCommandParameters, GetContentType, IsValidCommand;
    OneCommandBytes(code, ListBytes(ps));
    ParametersByNumber(code, ps);
    OneCommand(R2CP_MAGIC, code, ps);
  }

  lemma ParametersByNumber(code: uint32, ps: seq<Entry>)
    requires code in {4, 5, 6}
    ensures IsValidCommand(code) && GetContentType(code) == ParameterizedContent
    ensures AllAllowed(ps, GetCommandParameters(code)) <==> AreParameters(ps)
  {
    var allowed := GetCommandParameters(code);
    assert forall c: uint32 :: c in allowed <==> c in {1, 2, 3, 5, 6, 7, 8, 9, 10};
  }

  lemma PlainContent(code: uint32, data: seq<byte>)
    requires |data| < TWO_32 && code !in {4, 5, 6}
    ensures ValidateContent(code, data) == Accepted <==> code == 8 || data == []
    ensures IsValidCommand(code) <==> code in {1, 2, 3, 7, 8}
    ensures ParseContent(code, data) == Ok(if code == 8 then [Entry(0, data)] else [])
  {
    NoWrap(|data|);
  }

  /** The outcome for one command, from the outcome of its content. */
  lemma OneOutcome(code: uint32, data: seq<byte>)
    requires |data| + 20 < TWO_32 && Sized([Entry(code, data)]) && |ListBytes([Entry(code, data)])| == 12 + |data|
    ensures var p := Packet(R2CP_MAGIC, [Entry(code, data)]);
      if ValidateContent(code, data) != Accepted then Parse(p) == InvalidArgument
      else if !IsValidCommand(code) then Parse(p) == Ok([])
      else
        match ParseContent(code, data)
        case OutOfRange => Parse(p) == OutOfRange
        case InvalidArgument => Parse(p) == Ok([])
        case Ok(ps) => Parse(p) == Ok([Command(code, ps)])
  {
    hide Parse, ListBytes, ValidateContent, ParseContent, IsValidCommand, Word32, Validate;
    var es := [Entry(code, data)];
    assert es[1..] == [];
    if ValidateContent(code, data) == Accepted {
      ParsePacket(R2CP_MAGIC, es);
      assert ParseEntries([]) == Ok([]);
      assert forall c: Command :: [c] + [] == [c];
    } else {
      OneRefused(code, data);
    }
  }

  lemma OneRefused(code: uint32, data: seq<byte>)
    requires |data| + 20 < TWO_32 && Sized([Entry(code, data)]) && |ListBytes([Entry(code, data)])| == 12 + |data|
    requires ValidateContent(code, data) != Accepted
    ensures Parse(Packet(R2CP_MAGIC, [Entry(code, data)])) == InvalidArgument
  {
    hide Parse, Validate, ValidateContent, Word32, EntriesBytes, Sized, ListBytes, AllAccepted;
    var e := Entry(code, data);
    var p := Packet(R2CP_MAGIC, [e]);
    RefusedExactly(p);
    forall magic: uint32, fs: seq<Entry> | IsPacket(p, magic, fs) ensures !AllAccepted(fs) {
      SamePacket(R2CP_MAGIC, [e], magic, fs);
      OneNotAccepted(e);
    }
  }

  lemma OneNotAccepted(e: Entry)
    requires ValidateContent(e.code, e.data) != Accepted
    ensures !AllAccepted([e])
  {
    assert [e][0] == e;
  }

  /** A packet determines its commands. */
  lemma SamePacket(magic: uint32, es: seq<Entry>, other: uint32, fs: seq<Entry>)
    requires Sized(es) && Sized(fs) && |ListBytes(es)| < TWO_32 && |ListBytes(fs)| < TWO_32
    requires Packet(magic, es) == Packet(other, fs)
    ensures es == fs
  {
    hide Word32, EntriesBytes;
    var p := Packet(magic, es);
    assert p[8..12] == Word32(|es|) == Word32(|fs|) by {
      assert p[8..] == ListBytes(es) == ListBytes(fs);
    }
    WordInverse(|es|);
    WordInverse(|fs|);
    assert p[12..] == EntriesBytes(es) == EntriesBytes(fs);
    SameEntries(es, fs);
  }

  lemma {:induction false} SameEntries(es: seq<Entry>, fs: seq<Entry>)
    requires Sized(es) && Sized(fs) && |es| == |fs| && EntriesBytes(es) == EntriesBytes(fs)
    ensures es == fs
    decreases |es|
  {
    hide EntryBytes, EntriesBytes, Sized;
    if es != [] {
      SizedTail(es);
      SizedTail(fs);
      SameEntry(es[0], EntriesBytes(es[1..]), fs[0], EntriesBytes(fs[1..]));
      SameEntries(es[1..], fs[1..]);
      assert es == [es[0]] + es[1..] && fs == [fs[0]] + fs[1..];
    }
  }

  lemma SameEntry(e: Entry, after: seq<byte>, f: Entry, behind: seq<byte>)
    requires |e.data| < TWO_32 && |f.data| < TWO_32 && EntryBytes(e) + after == EntryBytes(f) + behind
    ensures e == f && after == behind
  {
    hide Word32;
    var s, t := EntryBytes(e) + after, EntryBytes(f) + behind;
    assert s[..4] == Word32(e.code) && t[..4] == Word32(f.code);
    WordInverse(e.code);
    WordInverse(f.code);
    assert s[4..8] == Word32(|e.data|) && t[4..8] == Word32(|f.data|);
    WordInverse(|e.data|);
    WordInverse(|f.data|);
    assert s[8..8 + |e.data|] == e.data && t[8..8 + |f.data|] == f.data;
    assert s[8 + |e.data|..] == after && t[8 + |f.data|..] == behind;
  }
}
