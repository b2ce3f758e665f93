// What the two passes of the parser make of a packet together: the second returns the
// commands the format denotes, and throws exactly where a 32-bit offset wraps.
module R2CPTheorems {
  import opened Bytes
  import opened R2CPDictionary
  import opened R2CPSpec
  import opened R2CPFormat

  // ---------------------------------------------------------- parameters

  predicate AllAllowed(ps: seq<Entry>, allowed: set<uint32>) {
    forall i :: 0 <= i < |ps| ==> ps[i].code in allowed
  }

  /** Before the first parameter with an undefined code, the 32-bit offset behind some
      parameter, or behind the code after it, wraps around. */
  ghost predicate SizeWraps(content: seq<byte>, offset: nat, count: nat, allowed: set<uint32>)
    decreases count
  {
    count > 0 && offset + 8 <= |content| < TWO_32 &&
    exists code: uint32, size: uint32 ::
      && content[offset..offset + 8] == Word32(code) + Word32(size) && code in allowed
      && (offset + 8 + size + 4 >= TWO_32 || SizeWraps(content, offset + 8 + size, count - 1, allowed))
  }

  lemma WordsAt(content: seq<byte>, offset: nat, code: uint32, size: uint32)
    requires offset + 8 <= |content| < TWO_32
    ensures content[offset..offset + 8] == Word32(code) + Word32(size) <==>
            ReadWord(content, offset) == Got(code, offset + 4) && ReadWord(content, offset + 4) == Got(size, offset + 8)
  {
    hide ReadWord, Word32, Word;
    ReadWordIff(content, offset);
    ReadWordIff(content, offset + 4);
    var a, b := ReadWord(content, offset).value, ReadWord(content, offset + 4).value;
    assert content[offset..offset + 8] == content[offset..offset + 4] + content[offset + 4..offset + 8];
    assert content[offset..offset + 4] == content[offset..offset + 8][..4];
    assert content[offset + 4..offset + 8] == content[offset..offset + 8][4..];
    WordInverse(a);
    WordInverse(b);
    WordInverse(code);
    WordInverse(size);
  }

  /** One parameter of accepted content: the first pass has read its size. */
  lemma AcceptedParameter(content: seq<byte>, offset: nat, count: nat)
    requires Within(content) && offset <= |content| && count > 0
    requires ValidateParametersFrom(content, offset, count) == Accepted
    ensures offset + 8 <= |content| && ReadWord(content, offset).Got? && ReadWord(content, offset + 4).Got?
    ensures ReadWord(content, offset).offset == offset + 4 && ReadWord(content, offset + 4).offset == offset + 8
    ensures var end := offset + 8 + ReadWord(content, offset + 4).value;
      && ValidateParametersFrom(content, Wrap(end), count - 1) == Accepted
      && (end + 4 < TWO_32 ==> end <= |content|)
  {
    hide ReadWord;
    ReadWordIff(content, offset);
    ReadWordIff(content, offset + 4);
    NoWrap(offset + 4);
    var end := offset + 8 + ReadWord(content, offset + 4).value;
    NoWrap(end);
    NoWrap(end + 4);
    NoWrap(|content|);
    if end + 4 < TWO_32 && end > |content| {
      ReadWordIff(content, end + 4);
    }
  }

  /** On content that passed the first pass, the second pass throws exactly when an
      offset wraps. */
  lemma {:induction false} ThrowsIffWraps(content: seq<byte>, offset: nat, count: nat, allowed: set<uint32>)
    requires Within(content) && offset <= |content|
    requires ValidateParametersFrom(content, offset, count) == Accepted
    ensures ParseParametersFrom(content, offset, count, allowed) == OutOfRange <==>
            SizeWraps(content, offset, count, allowed)
    decreases count
  {
    hide ReadWord, ReadBytes, ValidateParametersFrom, ParseParametersFrom, SizeWraps, Word32, Wrap;
    if count == 0 {
      NoParameters(content, offset, allowed);
    } else {
      AcceptedParameter(content, offset, count);
      var code, size := ReadWord(content, offset).value, ReadWord(content, offset + 4).value;
      var end := offset + 8 + size;
      WrapsStep(content, offset, count, allowed, code, size);
      ParseStep(content, offset, count, allowed, code, size);
      ReadBytesIff(content, offset + 8, size);
      NoWrap(end);
      if code in allowed && end <= |content| {
        ThrowsIffWraps(content, end, count - 1, allowed);
      }
    }
  }

  lemma NoParameters(content: seq<byte>, offset: nat, allowed: set<uint32>)
    requires offset <= |content| < TWO_32
    ensures ParseParametersFrom(content, offset, 0, allowed) == Ok([]) && !SizeWraps(content, offset, 0, allowed)
  {
  }

  /** One parameter in the second pass. */
  lemma ParseStep(content: seq<byte>, offset: uint32, count: nat, allowed: set<uint32>, code: uint32, size: uint32)
    requires offset + 8 < TWO_32 && count > 0
    requires ReadWord(content, offset) == Got(code, offset + 4)
    requires ReadWord(content, offset + 4) == Got(size, offset + 8)
    ensures ParseParametersFrom(content, offset, count, allowed) == OutOfRange <==>
            code in allowed &&
            var data := ReadBytes(content, offset + 8, size);
            !data.Got? || ParseParametersFrom(content, data.offset, count - 1, allowed) == OutOfRange
  {
    hide ReadWord, ReadBytes;
  }

  lemma WrapsStep(content: seq<byte>, offset: nat, count: nat, allowed: set<uint32>, code: uint32, size: uint32)
    requires offset + 8 <= |content| < TWO_32 && count > 0
    requires ReadWord(content, offset) == Got(code, offset + 4)
    requires ReadWord(content, offset + 4) == Got(size, offset + 8)
    ensures SizeWraps(content, offset, count, allowed) <==>
            code in allowed &&
            (offset + 8 + size + 4 >= TWO_32 || SizeWraps(content, offset + 8 + size, count - 1, allowed))
  {
    hide ReadWord, Word32;
    OnlyWords(content, offset, code, size);
    assert content[offset..offset + 8] == Word32(code) + Word32(size);
  }

  lemma OnlyWords(content: seq<byte>, offset: nat, code: uint32, size: uint32)
    requires offset + 8 <= |content| < TWO_32
    requires ReadWord(content, offset) == Got(code, offset + 4)
    requires ReadWord(content, offset + 4) == Got(size, offset + 8)
    ensures forall c: uint32, s: uint32 ::
      content[offset..offset + 8] == Word32(c) + Word32(s) <==> c == code && s == size
  {
    hide ReadWord, Word32;
    WordsAt(content, offset, code, size);
    forall c: uint32, s: uint32 | content[offset..offset + 8] == Word32(c) + Word32(s) ensures c == code && s == size {
      WordsAt(content, offset, c, s);
    }
  }

  /** The second pass returns parameters only when they are what the content holds, to its
      end, and the dictionary has all their codes. */
  lemma {:induction false} ReturnedParametersAreTheContent(content: seq<byte>, offset: nat, count: nat,
                                                           allowed: set<uint32>)
    requires Within(content) && offset <= |content| && count < TWO_32
    requires ValidateParametersFrom(content, offset, count) == Accepted
    requires ParseParametersFrom(content, offset, count, allowed).Ok?
    ensures var ps := ParseParametersFrom(content, offset, count, allowed).value;
      |ps| == count && Sized(ps) && content[offset..] == EntriesBytes(ps) && AllAllowed(ps, allowed)
    decreases count
  {
    hide ReadWord, ReadBytes, ValidateParametersFrom, EntryBytes, EntriesBytes, Sized, AllAllowed, Wrap;
    NoEntries();
    NoneAllowed(allowed);
    if count > 0 {
      AcceptedParameter(content, offset, count);
      var e := EntryRead(content, offset);
      NoWrap(offset + 8 + |e.data|);
      ReturnedParametersAreTheContent(content, offset + 8 + |e.data|, count - 1, allowed);
      var rest := ParseParametersFrom(content, offset + 8 + |e.data|, count - 1, allowed).value;
      SizedCons(e, rest);
      AllowedCons(e, rest, allowed);
    } else {
      NoWrap(|content|);
      EndOfContent(content, offset);
    }
  }

  lemma EndOfContent(content: seq<byte>, offset: uint32)
    requires |content| < TWO_32 && ValidateParametersFrom(content, offset, 0) == Accepted
    ensures offset == |content|
  {
  }

  lemma NoneAllowed(allowed: set<uint32>)
    ensures AllAllowed([], allowed)
  {
  }

  lemma AllowedCons(e: Entry, rest: seq<Entry>, allowed: set<uint32>)
    ensures AllAllowed([e] + rest, allowed) <==> e.code in allowed && AllAllowed(rest, allowed)
  {
    var es := [e] + rest;
    assert es[0] == e;
    assert forall i {:trigger rest[i]} :: 0 <= i < |rest| ==> es[i + 1] == rest[i];
    assert forall i {:trigger es[i]} :: 0 < i < |es| ==> es[i] == rest[i - 1];
  }

  /** Conversely, parameters end to end pass the first pass, and the second returns them
      or discards them for a code the dictionary does not have. */
  lemma {:induction false} ParametersAreReturned(content: seq<byte>, offset: nat, ps: seq<Entry>, allowed: set<uint32>)
    requires Within(content) && offset <= |content| && Sized(ps) && content[offset..] == EntriesBytes(ps)
    ensures ValidateParametersFrom(content, offset, |ps|) == Accepted
    ensures ParseParametersFrom(content, offset, |ps|, allowed) ==
            if AllAllowed(ps, allowed) then Ok(ps) else InvalidArgument
    decreases |ps|
  {
    hide ReadWord, ReadBytes, EntryBytes, EntriesBytes, Sized, AllAllowed, Wrap;
    NoEntries();
    NoneAllowed(allowed);
    NoWrap(|content|);
    if ps != [] {
      var e, rest := ps[0], ps[1..];
      assert ps == [e] + rest;
      SizedTail(ps);
      ReadEntryAt(content, offset, e, EntriesBytes(rest));
      NoWrap(offset + 4);
      NoWrap(offset + 8 + |e.data|);
      AllowedCons(e, rest, allowed);
      ParametersAreReturned(content, offset + 8 + |e.data|, rest, allowed);
    }
  }

  // ---------------------------------------------------------- one command

  /** The content e of a command on the wire is that of the parsed command c. */
  ghost predicate Denotes(e: Entry, c: Command) {
    && c.code == e.code && IsValidCommand(e.code)
    && match GetContentType(e.code)
       case NoContent => e.data == [] && c.parameters == []
       case DirectContent => c.parameters == [Entry(NOPARAMETERS, e.data)]
       case ParameterizedContent =>
         && Sized(c.parameters) && e.data == ListBytes(c.parameters)
         && AllAllowed(c.parameters, GetCommandParameters(e.code))
  }

  /** The 32-bit offset into the content wraps while the second pass reads it. */
  ghost predicate Wraps(e: Entry) {
    && IsValidCommand(e.code) && GetContentType(e.code) == ParameterizedContent
    && exists count: uint32 :: |e.data| >= 4 && e.data[..4] == Word32(count) &&
         SizeWraps(e.data, 4, count, GetCommandParameters(e.code))
  }

  lemma CountAt(content: seq<byte>, count: uint32)
    requires |content| < TWO_32
    ensures |content| >= 4 && content[..4] == Word32(count) <==> ReadWord(content, 0) == Got(count, 4)
  {
    hide Word32, ReadWord;
    ReadWordIff(content, 0);
    if |content| >= 4 {
      assert content[0..4] == content[..4];
      WordInverse(count);
      WordInverse(ReadWord(content, 0).value);
      assert content[..4] == Word32(count) ==> ReadWord(content, 0).value == count;
    }
  }

  /** The second pass over one accepted content: it throws iff an offset wraps, returns
      the parameters of the command denoted iff there is one, and else discards. */
  lemma ContentOutcome(e: Entry)
    requires Within(e.data) && IsValidCommand(e.code) && ValidateContent(e.code, e.data) == Accepted
    ensures ParseContent(e.code, e.data) == OutOfRange <==> Wraps(e)
    ensures forall ps :: ParseContent(e.code, e.data) == Ok(ps) <==> Denotes(e, Command(e.code, ps))
  {
    hide ReadWord, Word32, ValidateParametersFrom, ParseParametersFrom, EntriesBytes, Sized, AllAllowed, SizeWraps,
        IsValidCommand, GetCommandParameters;
    if GetContentType(e.code) == ParameterizedContent {
      var allowed := GetCommandParameters(e.code);
      ReadWordIff(e.data, 0);
      var count := ReadWord(e.data, 0).value;
      CountAt(e.data, count);
      forall n: uint32 | |e.data| >= 4 && e.data[..4] == Word32(n) ensures n == count {
        CountAt(e.data, n);
      }
      ThrowsIffWraps(e.data, 4, count, allowed);
      forall ps ensures ParseContent(e.code, e.data) == Ok(ps) <==> Denotes(e, Command(e.code, ps)) {
        ParametersOutcome(e.data, count, allowed, ps);
      }
    } else {
      NoWrap(|e.data|);
    }
  }

  lemma ParametersOutcome(content: seq<byte>, count: uint32, allowed: set<uint32>, ps: seq<Entry>)
    requires Within(content) && ReadWord(content, 0) == Got(count, 4)
    requires ValidateParametersFrom(content, 4, count) == Accepted
    ensures ParseParametersFrom(content, 4, count, allowed) == Ok(ps) <==>
            Sized(ps) && content == ListBytes(ps) && AllAllowed(ps, allowed)
  {
    hide ReadWord, Word32, ValidateParametersFrom, ParseParametersFrom, EntriesBytes, AllAllowed;
    CountAt(content, count);
    assert content == content[..4] + content[4..];
    if ParseParametersFrom(content, 4, count, allowed) == Ok(ps) {
      ReturnedParametersAreTheContent(content, 4, count, allowed);
    }
    if Sized(ps) && content == ListBytes(ps) && AllAllowed(ps, allowed) {
      assert content[..4] == Word32(|ps|) && content[4..] == EntriesBytes(ps);
      CountAt(content, |ps|);
      ParametersAreReturned(content, 4, ps, allowed);
    }
  }

  // ------------------------------------------------------------- packets

  /** cs are, in order, the commands that entries of es denote; the other entries are
      left out. */
  ghost predicate Kept(es: seq<Entry>, cs: seq<Command>)
    decreases |es|
  {
    if es == [] then cs == []
    else if exists c :: Denotes(es[0], c) then cs != [] && Denotes(es[0], cs[0]) && Kept(es[1..], cs[1..])
    else Kept(es[1..], cs)
  }

  /** A content denotes one command at most. */
  lemma DenotesOne(e: Entry, c: Command, d: Command)
    requires Within(e.data) && ValidateContent(e.code, e.data) == Accepted && Denotes(e, c) && Denotes(e, d)
    ensures c == d
  {
    hide ParseContent, Wraps, ValidateContent;
    ContentOutcome(e);
    assert c == Command(e.code, c.parameters) && d == Command(e.code, d.parameters);
  }

  /** So Kept leaves no choice. */
  lemma {:induction false} KeptIsOne(es: seq<Entry>, cs: seq<Command>, ds: seq<Command>)
    requires AllAccepted(es) && (forall i :: 0 <= i < |es| ==> Within(es[i].data))
    requires Kept(es, cs) && Kept(es, ds)
    ensures cs == ds
    decreases |es|
  {
    hide Denotes, ValidateContent;
    if es != [] {
      assert forall i :: 1 <= i < |es| ==> es[i] == es[1..][i - 1];
      if exists c :: Denotes(es[0], c) {
        DenotesOne(es[0], cs[0], ds[0]);
        KeptIsOne(es[1..], cs[1..], ds[1..]);
        assert cs == [cs[0]] + cs[1..] && ds == [ds[0]] + ds[1..];
      } else {
        KeptIsOne(es[1..], cs, ds);
      }
    }
  }

  lemma FirstOutcome(e: Entry, r: Result<seq<Command>>)
    requires Within(e.data) && ValidateContent(e.code, e.data) == Accepted
    ensures Wraps(e) ==> ParseEntry(e, r) == OutOfRange
    ensures !Wraps(e) && (exists c :: Denotes(e, c)) ==>
              exists c :: Denotes(e, c) && ParseEntry(e, r) == Cons([c], r)
    ensures !Wraps(e) && !(exists c :: Denotes(e, c)) ==> ParseEntry(e, r) == r
  {
    hide ParseContent, Wraps;
    if IsValidCommand(e.code) {
      ContentOutcome(e);
      if ParseContent(e.code, e.data).Ok? {
        assert Denotes(e, Command(e.code, ParseContent(e.code, e.data).value));
      }
      forall c | Denotes(e, c) ensures ParseContent(e.code, e.data) == Ok(c.parameters) {
        assert c == Command(e.code, c.parameters);
      }
    } else {
      assert !Wraps(e) by { OnlyValidWraps(e); }
    }
  }

  lemma OnlyValidWraps(e: Entry)
    ensures Wraps(e) ==> IsValidCommand(e.code)
  {
  }

  lemma {:induction false} EntriesOutcome(es: seq<Entry>)
    requires AllAccepted(es) && forall i :: 0 <= i < |es| ==> Within(es[i].data)
    ensures ParseEntries(es) == OutOfRange <==> exists i :: 0 <= i < |es| && Wraps(es[i])
    ensures ParseEntries(es) != InvalidArgument
    ensures ParseEntries(es).Ok? ==> Kept(es, ParseEntries(es).value)
    decreases |es|
  {
    hide ParseEntry, Wraps, Denotes, ValidateContent;
    if es != [] {
      EntriesOutcome(es[1..]);
      FirstOutcome(es[0], ParseEntries(es[1..]));
      assert forall i :: 1 <= i < |es| ==> es[i] == es[1..][i - 1];
    }
  }

  lemma {:induction false} EntriesAreShorter(es: seq<Entry>, bound: nat)
    requires Sized(es) && |EntriesBytes(es)| < bound
    ensures forall i :: 0 <= i < |es| ==> |es[i].data| + 8 < bound
    decreases |es|
  {
    if es != [] {
      SizedTail(es);
      EntriesAreShorter(es[1..], bound);
      assert forall i :: 1 <= i < |es| ==> es[i] == es[1..][i - 1];
    }
  }

  /** The two passes together. A packet with a body that the first pass accepts is a list
      of commands end to end, and the second pass reads it to the end without throwing,
      exactly unless an offset into some valid parameterized command wraps; it then
      returns, in order, the commands that the list denotes. */
  lemma TwoPassAgreement(p: seq<byte>) returns (magic: uint32, es: seq<Entry>)
    requires |p| < TWO_32 && Validate(p) == Ok(true) && |p| > MIN_PACKET_SIZE
    ensures magic in {R2CP_MAGIC, RRCP_MAGIC} && Sized(es) && |ListBytes(es)| < TWO_32 && p == Packet(magic, es)
    ensures AllAccepted(es)
    ensures Parse(p) == OutOfRange <==> exists i :: 0 <= i < |es| && Wraps(es[i])
    ensures Parse(p) != InvalidArgument
    ensures Parse(p).Ok? ==> Kept(es, Parse(p).value)
  {
    hide Parse, ParseEntries, Wraps, Kept, AllAccepted, EntriesBytes, Validate;
    magic, es := AcceptedIsPacket(p);
    ParsePacket(magic, es);
    EntriesAreShorter(es, |p|);
    EntriesOutcome(es);
  }

  /** A valid parameterized command of the packet makes an offset wrap. */
  ghost predicate PacketWraps(p: seq<byte>) {
    exists magic: uint32, es: seq<Entry> ::
      && IsPacket(p, magic, es) && AllAccepted(es) && exists i :: 0 <= i < |es| && Wraps(es[i])
  }

  predicate IsPacket(p: seq<byte>, magic: uint32, es: seq<Entry>) {
    magic in {R2CP_MAGIC, RRCP_MAGIC} && Sized(es) && |ListBytes(es)| < TWO_32 && p == Packet(magic, es)
  }

  /** Of all accepted packets below 4 GiB, the second pass throws on those without a body
      and on those in which an offset wraps, and on no others. */
  lemma ThrowsExactly(p: seq<byte>)
    requires |p| < TWO_32 && Validate(p) == Ok(true)
    ensures Parse(p) == OutOfRange <==> |p| == MIN_PACKET_SIZE || PacketWraps(p)
  {
    hide Parse, Validate, ParseEntries, Wraps, AllAccepted, EntriesBytes, ReadWord, Kept;
    AcceptedLength(p);
    if |p| == MIN_PACKET_SIZE {
      EmptyBodyThrows(p);
    } else {
      var magic, es := TwoPassAgreement(p);
      assert IsPacket(p, magic, es);
      forall other: uint32, fs: seq<Entry>, i
        | IsPacket(p, other, fs) && AllAccepted(fs) && 0 <= i < |fs| && Wraps(fs[i])
        ensures Parse(p) == OutOfRange
      {
        ParsePacket(other, fs);
        EntriesAreShorter(fs, |p|);
        EntriesOutcome(fs);
      }
    }
  }

  lemma AcceptedLength(p: seq<byte>)
    requires |p| < TWO_32 && Validate(p) == Ok(true)
    ensures |p| >= MIN_PACKET_SIZE
  {
    hide ReadWord, ReadBytes, ValidateCommands;
    NoWrap(|p|);
  }

  /** Eight bytes that the first pass accepts and the second throws on. */
  lemma EmptyBodyAccepted()
    ensures var p := Word32(R2CP_MAGIC) + Word32(0); Validate(p) == Ok(true) && Parse(p) == OutOfRange
  {
    hide ReadWord, Word32, Wrap, Parse;
    var p := Word32(R2CP_MAGIC) + Word32(0);
    assert p[0..] == Word32(R2CP_MAGIC) + Word32(0);
    ReadWordAt(p, 0, R2CP_MAGIC, Word32(0));
    assert p[4..] == Word32(0) + [];
    ReadWordAt(p, 4, 0, []);
    NoWrap(8);
    EmptyBodyThrows(p);
  }

  // ---------------------------------------------------------- round trip

  /** A command as the dictionary defines it. */
  predicate Conforming(c: Command) {
    && IsValidCommand(c.code)
    && match GetContentType(c.code)
       case NoContent => c.parameters == []
       case DirectContent =>
         |c.parameters| == 1 && c.parameters[0].code == NOPARAMETERS && |c.parameters[0].data| < TWO_32
       case ParameterizedContent =>
         && AllAllowed(c.parameters, GetCommandParameters(c.code))
         && Sized(c.parameters) && |ListBytes(c.parameters)| < TWO_32
  }

  /** The command as it stands on the wire. */
  function ToEntry(c: Command): (e: Entry)
    requires Conforming(c)
    ensures |e.data| < TWO_32
  {
    match GetContentType(c.code)
    case NoContent => Entry(c.code, [])
    case DirectContent => Entry(c.code, c.parameters[0].data)
    case ParameterizedContent => Entry(c.code, ListBytes(c.parameters))
  }

  predicate AllConforming(cs: seq<Command>) {
    |cs| < TWO_32 && forall i :: 0 <= i < |cs| ==> Conforming(cs[i])
  }

  function ToEntries(cs: seq<Command>): (es: seq<Entry>)
    requires AllConforming(cs)
    ensures Sized(es)
  {
    seq(|cs|, i requires 0 <= i < |cs| => ToEntry(cs[i]))
  }

  lemma ConformingIsAccepted(c: Command)
    requires Conforming(c) && Within(ToEntry(c).data)
    ensures ValidateContent(c.code, ToEntry(c).data) == Accepted
    ensures ParseContent(c.code, ToEntry(c).data) == Ok(c.parameters)
  {
    hide ReadWord, Word32, ValidateParametersFrom, ParseParametersFrom, EntriesBytes, AllAllowed, IsValidCommand,
        GetCommandParameters;
    var ps, content := c.parameters, ToEntry(c).data;
    NoWrap(|content|);
    if GetContentType(c.code) == ParameterizedContent {
      assert content[..4] == Word32(|ps|) && content[4..] == EntriesBytes(ps);
      CountAt(content, |ps|);
      ParametersAreReturned(content, 4, ps, GetCommandParameters(c.code));
    } else if GetContentType(c.code) == DirectContent {
      assert ps == [ps[0]];
    }
  }

  lemma {:induction false} ConformingOutcome(cs: seq<Command>)
    requires AllConforming(cs) && forall i :: 0 <= i < |cs| ==> Within(ToEntry(cs[i]).data)
    ensures AllAccepted(ToEntries(cs)) && ParseEntries(ToEntries(cs)) == Ok(cs)
    decreases |cs|
  {
    hide ParseContent, ValidateContent, Conforming;
    if cs != [] {
      ConformingOutcome(cs[1..]);
      ConformingIsAccepted(cs[0]);
      ConformingIsValid(cs[0]);
      var es := ToEntries(cs);
      assert es[1..] == ToEntries(cs[1..]);
      assert forall i :: 1 <= i < |es| ==> es[i] == es[1..][i - 1];
      assert cs == [cs[0]] + cs[1..];
    }
  }

  lemma ConformingIsValid(c: Command)
    requires Conforming(c)
    ensures IsValidCommand(c.code) && ToEntry(c).code == c.code
  {
  }

  /** Every list of conforming commands that fits 32 bits is accepted, and comes back. */
  lemma PacketRoundTrip(magic: uint32, cs: seq<Command>)
    requires magic in {R2CP_MAGIC, RRCP_MAGIC} && AllConforming(cs)
    requires |ListBytes(ToEntries(cs))| + 8 < TWO_32
    ensures Validate(Packet(magic, ToEntries(cs))) == Ok(true)
    ensures Parse(Packet(magic, ToEntries(cs))) == Ok(cs)
  {
    hide Parse, Validate, ParseEntries, EntriesBytes, AllAccepted;
    var es := ToEntries(cs);
    EntriesAreShorter(es, TWO_32 - 8);
    assert forall i :: 0 <= i < |cs| ==> es[i] == ToEntry(cs[i]);
    ConformingOutcome(cs);
    PacketIsAccepted(magic, es);
    ParsePacket(magic, es);
  }

  /** A packet of one parameterized command is always accepted; the command comes back
      exactly when the dictionary has all its parameters, and is dropped otherwise. */
  lemma OneCommand(magic: uint32, code: uint32, ps: seq<Entry>)
    requires magic in {R2CP_MAGIC, RRCP_MAGIC} && IsValidCommand(code) && GetContentType(code) == ParameterizedContent
    requires Sized(ps) && |ListBytes(ps)| + 20 < TWO_32
    ensures |ListBytes([Entry(code, ListBytes(ps))])| + 8 < TWO_32
    ensures var p := Packet(magic, [Entry(code, ListBytes(ps))]);
      && Validate(p) == Ok(true)
      && Parse(p) == Ok(if AllAllowed(ps, GetCommandParameters(code)) then [Command(code, ps)] else [])
  {
    hide Parse, Validate, ReadWord, Word32, ValidateParametersFrom, ParseParametersFrom, EntryBytes, EntriesBytes,
      AllAllowed, IsValidCommand, GetCommandParameters;
    var content := ListBytes(ps);
    var e := Entry(code, content);
    NoEntries();
    SizedCons(e, []);
    assert [e] + [] == [e] && [e][1..] == [];
    EntryLength(e);
    assert content[..4] == Word32(|ps|) && content[4..] == EntriesBytes(ps);
    CountAt(content, |ps|);
    ParametersAreReturned(content, 4, ps, GetCommandParameters(code));
    assert ParseEntries([]) == Ok([]) && [Command(code, ps)] + [] == [Command(code, ps)];
    PacketIsAccepted(magic, [e]);
    ParsePacket(magic, [e]);
  }

  lemma EntryLength(e: Entry)
    requires |e.data| < TWO_32
    ensures |EntryBytes(e)| == 8 + |e.data|
  {
    hide Word32;
  }

  /** The parameters of the image commands: the motors', but not the image height. */
  lemma ImageParameters(code: uint32)
    requires code in {IMAGESEND, IMAGERECEIVE}
    ensures IsValidCommand(code) && GetContentType(code) == ParameterizedContent
    ensures {MOTORRIGHT, MOTORLEFT} <= GetCommandParameters(code) == GetCommandParameters(MOTORDUTYCYCLE)
    ensures IMAGEHEIGHT !in GetCommandParameters(code)
  {
  }

  /** So an image command that gives its height is accepted, and dropped. */
  lemma ImageWithHeightDropped(code: uint32, ps: seq<Entry>, i: nat)
    requires code in {IMAGESEND, IMAGERECEIVE} && Sized(ps) && |ListBytes(ps)| + 20 < TWO_32
    requires i < |ps| && ps[i].code == IMAGEHEIGHT
    ensures |ListBytes([Entry(code, ListBytes(ps))])| + 8 < TWO_32
    ensures var p := Packet(R2CP_MAGIC, [Entry(code, ListBytes(ps))]); Validate(p) == Ok(true) && Parse(p) == Ok([])
  {
    hide Parse, Validate, EntriesBytes, GetCommandParameters, GetContentType, IsValidCommand;
    ImageParameters(code);
    OneCommand(R2CP_MAGIC, code, ps);
  }

  // ------------------------------------------------------------- a witness

  /** Two parameters; the size of the first brings the next offset back to 8. */
  function WrappingContent(): seq<byte> {
    Word32(2) + Word32(MOTORRIGHT) + Word32(TWO_32 - 4) + Word32(0)
  }

  lemma WrappingContentAccepted()
    ensures ValidateContent(MOTORDUTYCYCLE, WrappingContent()) == Accepted
    ensures Wraps(Entry(MOTORDUTYCYCLE, WrappingContent()))
  {
    hide ReadWord, Word32, Wrap, WrappingContent, ValidateParametersFrom, SizeWraps;
    var content := WrappingContent();
    var allowed := GetCommandParameters(MOTORDUTYCYCLE);
    WrappingWords();
    Around();
    AcceptStep(content, 4, 2);
    AcceptStep(content, 8, 1);
    AcceptEnd(content, 16);
    CountAt(content, 2);
    WrapsStep(content, 4, 2, allowed, MOTORRIGHT, TWO_32 - 4);
  }

  lemma WrappingWords()
    ensures var content := WrappingContent();
      && |content| == 16 && ReadWord(content, 0) == Got(2, 4) && ReadWord(content, 4) == Got(MOTORRIGHT, 8)
      && ReadWord(content, 8) == Got(TWO_32 - 4, 12) && ReadWord(content, 12) == Got(0, 16)
  {
    hide ReadWord, Word32;
    var content := WrappingContent();
    assert content[0..] == Word32(2) + (Word32(MOTORRIGHT) + Word32(TWO_32 - 4) + Word32(0));
    ReadWordAt(content, 0, 2, Word32(MOTORRIGHT) + Word32(TWO_32 - 4) + Word32(0));
    assert content[4..] == Word32(MOTORRIGHT) + (Word32(TWO_32 - 4) + Word32(0));
    ReadWordAt(content, 4, MOTORRIGHT, Word32(TWO_32 - 4) + Word32(0));
    ReadWordAt(content, 8, TWO_32 - 4, Word32(0));
    assert content[12..] == Word32(0) + [];
    ReadWordAt(content, 12, 0, []);
  }

  /** One parameter in the first pass. */
  lemma AcceptStep(content: seq<byte>, offset: uint32, count: nat)
    requires count > 0 && ReadWord(content, Wrap(offset + 4)).Got?
    ensures var size := ReadWord(content, Wrap(offset + 4));
      ValidateParametersFrom(content, offset, count) ==
      ValidateParametersFrom(content, Wrap(size.offset + size.value), count - 1)
  {
    hide ReadWord, Wrap;
  }

  lemma AcceptEnd(content: seq<byte>, offset: uint32)
    requires |content| < TWO_32 && offset == |content|
    ensures ValidateParametersFrom(content, offset, 0) == Accepted
  {
  }

  lemma Around()
    ensures Wrap(12 + (TWO_32 - 4)) == 8 && Wrap(8 + 4) == 12 && Wrap(4 + 4) == 8 && Wrap(16 + 0) == 16
    ensures Wrap(8) == 8 && Wrap(12) == 12 && Wrap(16) == 16
  {
  }

  /** A packet that the first pass accepts although the second throws. */
  lemma AcceptedButThrows() returns (p: seq<byte>)
    ensures |p| == 36 && Validate(p) == Ok(true) && Parse(p) == OutOfRange
  {
    hide Parse, Validate, Wraps, EntryBytes, EntriesBytes, ParseEntries, ValidateContent, ParseEntry, Word32;
    var es := [Entry(MOTORDUTYCYCLE, WrappingContent())];
    WrappingContentAccepted();
    p := OneEntryPacket(es[0]);
    ParsePacket(R2CP_MAGIC, es);
    PacketIsAccepted(R2CP_MAGIC, es);
    EntriesOutcome(es);
  }

  lemma OneEntryPacket(e: Entry) returns (p: seq<byte>)
    requires |e.data| == 16
    ensures Sized([e]) && |ListBytes([e])| == 28 && p == Packet(R2CP_MAGIC, [e]) && |p| == 36
  {
    hide Word32;
    NoEntries();
    SizedCons(e, []);
    assert [e] + [] == [e];
    p := Packet(R2CP_MAGIC, [e]);
  }
}
