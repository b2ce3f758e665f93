// The two passes of the parser against the wire format: what the first accepts,
// what the second returns, and when the second throws all the same.
module R2CPFormat {
  import opened Bytes
  import opened R2CPDictionary
  import opened R2CPSpec

  // ------------------------------------------------------------ single reads

  lemma NoWrap(n: nat)
    ensures n < TWO_32 ==> Wrap(n) == n
  {
  }

  lemma WordInverse(n: uint32)
    ensures var w := Word32(n); Word(w[0], w[1], w[2], w[3]) == n
  {
    hide ToBigEndian;
    WordBytes(n);
  }

  lemma Word32Inverse(a: byte, b: byte, c: byte, d: byte)
    ensures Word32(Word(a, b, c, d)) == [a, b, c, d]
  {
    hide ToBigEndian;
    WordOfBytes(a, b, c, d);
  }

  lemma ReadWordAs(p: seq<byte>, offset: uint32)
    requires |p| < TWO_32
    ensures if offset + 4 <= |p| then
              ReadWord(p, offset) == Got(Word(p[offset], p[offset + 1], p[offset + 2], p[offset + 3]), offset + 4)
            else !ReadWord(p, offset).Got?
  {
    hide Word;
  }

  /** A word read in a packet below 4 GiB is four bytes of it, with no wrap-around. */
  lemma ReadWordIff(p: seq<byte>, offset: uint32)
    requires |p| < TWO_32
    ensures if offset + 4 <= |p| then
              ReadWord(p, offset).Got? && ReadWord(p, offset).offset == offset + 4 &&
              p[offset..offset + 4] == Word32(ReadWord(p, offset).value)
            else !ReadWord(p, offset).Got?
  {
    hide ReadWord, Word32, Word;
    ReadWordAs(p, offset);
    if offset + 4 <= |p| {
      Word32Inverse(p[offset], p[offset + 1], p[offset + 2], p[offset + 3]);
      assert p[offset..offset + 4] == [p[offset], p[offset + 1], p[offset + 2], p[offset + 3]];
    }
  }

  /** Reading a range likewise; the sum may wrap, but then vector::at throws. */
  lemma ReadBytesIff(p: seq<byte>, offset: uint32, n: uint32)
    requires |p| < TWO_32 && offset <= |p|
    ensures if offset + n <= |p| then ReadBytes(p, offset, n) == Got(p[offset..offset + n], offset + n)
            else !ReadBytes(p, offset, n).Got?
  {
    if offset + n <= |p| {
      assert InRange(p, offset, n);
      var r := ReadBytes(p, offset, n);
      forall i | 0 <= i < n ensures r.value[i] == p[offset..offset + n][i] {
        assert Has(p, offset, i) && Wrap(offset + i) == offset + i;
      }
      assert r.value == p[offset..offset + n];
    } else {
      assert !Has(p, offset, |p| - offset);
    }
  }

  lemma ReadWordAt(p: seq<byte>, offset: nat, n: uint32, rest: seq<byte>)
    requires |p| < TWO_32 && offset <= |p| && p[offset..] == Word32(n) + rest
    ensures ReadWord(p, offset) == Got(n, offset + 4) && p[offset + 4..] == rest
  {
    ReadWordIff(p, offset);
    assert p[offset..offset + 4] == p[offset..][..4] == Word32(n);
    WordInverse(n);
    WordInverse(ReadWord(p, offset).value);
    assert p[offset + 4..] == p[offset..][4..];
  }

  /** Reading one entry where it stands. */
  lemma ReadEntryAt(p: seq<byte>, offset: nat, e: Entry, rest: seq<byte>)
    requires |p| < TWO_32 && offset <= |p| && |e.data| < TWO_32 && p[offset..] == EntryBytes(e) + rest
    ensures ReadWord(p, offset) == Got(e.code, offset + 4)
    ensures ReadWord(p, offset + 4) == Got(|e.data|, offset + 8)
    ensures ReadBytes(p, offset + 8, |e.data|) == Got(e.data, offset + 8 + |e.data|)
    ensures offset + 8 + |e.data| <= |p| && p[offset + 8 + |e.data|..] == rest
  {
    assert EntryBytes(e) + rest == Word32(e.code) + (Word32(|e.data|) + (e.data + rest));
    ReadWordAt(p, offset, e.code, Word32(|e.data|) + (e.data + rest));
    ReadWordAt(p, offset + 4, |e.data|, e.data + rest);
    ReadBytesIff(p, offset + 8, |e.data|);
    assert p[offset + 8..offset + 8 + |e.data|] == p[offset + 8..][..|e.data|];
    assert p[offset + 8 + |e.data|..] == p[offset + 8..][|e.data|..];
  }

  /** Three reads that succeed read one entry. */
  lemma EntryRead(p: seq<byte>, offset: nat) returns (e: Entry)
    requires offset + 8 <= |p| < TWO_32 && ReadWord(p, offset).Got? && ReadWord(p, offset + 4).Got?
    requires ReadBytes(p, offset + 8, ReadWord(p, offset + 4).value).Got?
    ensures e.code == ReadWord(p, offset).value && |e.data| == ReadWord(p, offset + 4).value
    ensures offset + 8 + |e.data| <= |p| && e.data == p[offset + 8..offset + 8 + |e.data|]
    ensures ReadBytes(p, offset + 8, |e.data|) == Got(e.data, offset + 8 + |e.data|)
    ensures ReadWord(p, offset).offset == offset + 4 && ReadWord(p, offset + 4).offset == offset + 8
    ensures p[offset..] == EntryBytes(e) + p[offset + 8 + |e.data|..]
  {
    hide Word32, Has, ReadWord, ReadBytes;
    ReadWordIff(p, offset);
    ReadWordIff(p, offset + 4);
    var size := ReadWord(p, offset + 4).value;
    ReadBytesIff(p, offset + 8, size);
    e := Entry(ReadWord(p, offset).value, p[offset + 8..offset + 8 + size]);
    assert p[offset..] == p[offset..offset + 4] + p[offset + 4..offset + 8] + e.data + p[offset + 8 + size..];
  }

  // ------------------------------------------------------ what is accepted

  predicate AllAccepted(es: seq<Entry>) {
    forall i :: 0 <= i < |es| ==> ValidateContent(es[i].code, es[i].data) == Accepted
  }

  predicate Within(p: seq<byte>) { |p| + 8 < TWO_32 }

  /** Commands that pass the first pass are entries with accepted content, end to end. */
  lemma {:induction false} CommandsAreEntries(body: seq<byte>, offset: nat, count: nat) returns (es: seq<Entry>)
    requires Within(body) && offset <= |body| && count < TWO_32 && ValidateCommandsFrom(body, offset, count)
    ensures |es| == count && Sized(es) && body[offset..] == EntriesBytes(es)
    ensures AllAccepted(es)
    decreases count
  {
    hide ReadWord, ReadBytes, ValidateContent, EntryBytes, EntriesBytes, Sized, AllAccepted, Wrap;
    NoWrap(|body|);
    NoEntries();
    if count == 0 {
      es := [];
    } else {
      var e := FirstCommand(body, offset, count);
      var rest := CommandsAreEntries(body, offset + 8 + |e.data|, count - 1);
      es := [e] + rest;
      SizedCons(e, rest);
    }
  }

  lemma FirstCommand(body: seq<byte>, offset: nat, count: nat) returns (e: Entry)
    requires Within(body) && offset <= |body| && 0 < count && ValidateCommandsFrom(body, offset, count)
    ensures |e.data| < TWO_32 && offset + 8 + |e.data| <= |body|
    ensures body[offset..] == EntryBytes(e) + body[offset + 8 + |e.data|..]
    ensures ValidateContent(e.code, e.data) == Accepted
    ensures ValidateCommandsFrom(body, offset + 8 + |e.data|, count - 1)
  {
    hide ReadWord, ReadBytes, ValidateContent, EntryBytes, Wrap;
    ReadWordIff(body, offset);
    ReadWordIff(body, offset + 4);
    e := EntryRead(body, offset);
  }

  lemma NoEntries()
    ensures Sized([]) && AllAccepted([]) && EntriesBytes([]) == []
  {
  }

  lemma SizedCons(e: Entry, rest: seq<Entry>)
    requires |e.data| < TWO_32 && |rest| + 1 < TWO_32 && Sized(rest)
    ensures ValidateContent(e.code, e.data) == Accepted && AllAccepted(rest) ==> AllAccepted([e] + rest)
    ensures Sized([e] + rest) && EntriesBytes([e] + rest) == EntryBytes(e) + EntriesBytes(rest)
  {
    hide ValidateContent, EntryBytes;
    var es := [e] + rest;
    assert es[1..] == rest;
    assert forall i :: 0 <= i < |es| ==> es[i] == if i == 0 then e else rest[i - 1];
  }

  lemma SizedTail(es: seq<Entry>)
    requires Sized(es) && es != []
    ensures |es[0].data| < TWO_32 && Sized(es[1..])
    ensures EntriesBytes(es) == EntryBytes(es[0]) + EntriesBytes(es[1..])
    ensures AllAccepted(es) ==> ValidateContent(es[0].code, es[0].data) == Accepted && AllAccepted(es[1..])
  {
    hide ValidateContent, EntryBytes;
  }

  /** And the first pass accepts every such sequence. */
  lemma {:induction false} EntriesAreAccepted(body: seq<byte>, offset: nat, es: seq<Entry>)
    requires Within(body) && offset <= |body| && Sized(es) && body[offset..] == EntriesBytes(es)
    requires AllAccepted(es)
    ensures ValidateCommandsFrom(body, offset, |es|)
    decreases |es|
  {
    hide ReadWord, ReadBytes, ValidateContent, EntryBytes, Sized, AllAccepted;
    if es != [] {
      var e, rest := es[0], es[1..];
      SizedTail(es);
      ReadEntryAt(body, offset, e, EntriesBytes(rest));
      EntriesAreAccepted(body, offset + 8 + |e.data|, rest);
    }
  }

  /** A packet with a body passes the first pass exactly when it is a list of commands
      with accepted content, behind one of the two magic numbers. */
  lemma AcceptedIsPacket(p: seq<byte>) returns (magic: uint32, es: seq<Entry>)
    requires |p| < TWO_32 && Validate(p) == Ok(true) && |p| > MIN_PACKET_SIZE
    ensures magic in {R2CP_MAGIC, RRCP_MAGIC} && Sized(es) && |ListBytes(es)| < TWO_32 && p == Packet(magic, es)
    ensures AllAccepted(es)
  {
    hide ReadWord, ReadBytes, ValidateContent, EntryBytes, Word32, EntriesBytes;
    ReadWordIff(p, 0);
    ReadWordIff(p, 4);
    magic := ReadWord(p, 0).value;
    var size := ReadWord(p, 4).value;
    ReadBytesIff(p, 8, size);
    var body := p[8..8 + size];
    ReadWordIff(body, 0);
    es := CommandsAreEntries(body, 4, ReadWord(body, 0).value);
    assert body == body[0..4] + body[4..];
    assert p == p[0..4] + p[4..8] + p[8..8 + size];
  }

  lemma PacketIsAccepted(magic: uint32, es: seq<Entry>)
    requires magic in {R2CP_MAGIC, RRCP_MAGIC} && Sized(es) && |ListBytes(es)| + 8 < TWO_32
    requires AllAccepted(es)
    ensures Validate(Packet(magic, es)) == Ok(true) && |Packet(magic, es)| > MIN_PACKET_SIZE
  {
    hide ReadWord, ReadBytes, ListBytes, ValidateCommands, Word32, Wrap, AllAccepted, Sized;
    var p, body := Packet(magic, es), ListBytes(es);
    assert p[0..] == Word32(magic) + (Word32(|body|) + body);
    ReadWordAt(p, 0, magic, Word32(|body|) + body);
    ReadWordAt(p, 4, |body|, body);
    ReadBytesIff(p, 8, |body|);
    assert p[8..8 + |body|] == body;
    NoWrap(|p|);
    BodyIsAccepted(es);
  }

  lemma BodyIsAccepted(es: seq<Entry>)
    requires Sized(es) && |ListBytes(es)| + 8 < TWO_32 && AllAccepted(es)
    ensures ValidateCommands(ListBytes(es)) && ListBytes(es) != []
  {
    hide ReadWord, ValidateContent, EntryBytes, EntriesBytes, Word32, AllAccepted;
    var body := ListBytes(es);
    assert body[0..] == Word32(|es|) + EntriesBytes(es);
    ReadWordAt(body, 0, |es|, EntriesBytes(es));
    EntriesAreAccepted(body, 4, es);
  }

  // ------------------------------------------------------- the second pass

  /** What the second pass makes of one command, r being the outcome of the rest. */
  function ParseEntry(e: Entry, r: Result<seq<Command>>): Result<seq<Command>> {
    if !IsValidCommand(e.code) then r
    else
      match ParseContent(e.code, e.data)
      case OutOfRange => OutOfRange
      case InvalidArgument => r
      case Ok(parameters) => Cons([Command(e.code, parameters)], r)
  }

  /** The second pass over entries instead of bytes. */
  function ParseEntries(es: seq<Entry>): Result<seq<Command>>
    decreases |es|
  {
    if es == [] then Ok([]) else ParseEntry(es[0], ParseEntries(es[1..]))
  }

  lemma ParseFirst(p: seq<byte>, offset: nat, e: Entry, rest: seq<byte>, count: nat)
    requires |p| < TWO_32 && offset <= |p| && |e.data| < TWO_32 && p[offset..] == EntryBytes(e) + rest && count > 0
    ensures var next := offset + 8 + |e.data|;
      && next <= |p| && p[next..] == rest
      && ParseCommandsFrom(p, offset, count) == ParseEntry(e, ParseCommandsFrom(p, next, count - 1))
  {
    hide ReadWord, ReadBytes, ParseContent, EntryBytes, IsValidCommand, Wrap;
    ReadEntryAt(p, offset, e, rest);
    NoWrap(offset + 8 + |e.data|);
  }

  lemma {:induction false} ParseCommandsIsParseEntries(p: seq<byte>, offset: nat, es: seq<Entry>)
    requires |p| < TWO_32 && offset <= |p| && Sized(es) && p[offset..] == EntriesBytes(es)
    ensures ParseCommandsFrom(p, offset, |es|) == ParseEntries(es)
    decreases |es|
  {
    hide ParseEntry, EntryBytes, EntriesBytes, Sized, ReadWord, ReadBytes, ParseContent, IsValidCommand, Wrap, Cons;
    if es != [] {
      var e, rest := es[0], es[1..];
      SizedTail(es);
      ParseFirst(p, offset, e, EntriesBytes(rest), |es|);
      ParseCommandsIsParseEntries(p, offset + 8 + |e.data|, rest);
    }
  }

  /** On a packet the second pass reads exactly its entries, to the end. */
  lemma ParsePacket(magic: uint32, es: seq<Entry>)
    requires magic in {R2CP_MAGIC, RRCP_MAGIC} && Sized(es) && |ListBytes(es)| + 8 < TWO_32
    requires AllAccepted(es)
    ensures Parse(Packet(magic, es)) == ParseEntries(es)
  {
    hide ReadWord, ReadBytes, ValidateContent, EntryBytes, EntriesBytes, Validate, ParseEntries;
    var p := Packet(magic, es);
    PacketIsAccepted(magic, es);
    assert p[8..] == Word32(|es|) + EntriesBytes(es);
    ReadWordAt(p, 8, |es|, EntriesBytes(es));
    ParseCommandsIsParseEntries(p, 12, es);
  }

  /** An accepted packet without a body makes the second pass throw. */
  lemma EmptyBodyThrows(p: seq<byte>)
    requires |p| == MIN_PACKET_SIZE && Validate(p) == Ok(true)
    ensures Parse(p) == OutOfRange
  {
    ReadWordIff(p, 8);
  }
}
