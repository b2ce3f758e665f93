// The R2CP wire format, and what the two passes of R2CPParser.cpp compute, as
// functions of the bytes and a read offset. Offsets are 32-bit and wrap around.
module R2CPSpec {
  import opened Bytes
  import opened R2CPDictionary

  /** A code and data: a parameter, or a command as it stands on the wire. */
  datatype Entry = Entry(code: uint32, data: seq<byte>)

  datatype Command = Command(code: uint32, parameters: seq<Entry>)

  const MIN_PACKET_SIZE: nat := 8
  const R2CP_MAGIC: uint32 := 1379025744
  const RRCP_MAGIC: uint32 := 1381122896

  /** The outcome of one read: the value and the next offset; or the bounds check
      failed; or it passed, because the sum wrapped, and vector::at threw. */
  datatype Read<+T> = Got(value: T, offset: uint32) | Short | Lost

  /** A result, or the exception thrown instead. */
  datatype Result<+T> = Ok(value: T) | OutOfRange | InvalidArgument

  function Wrap(n: nat): uint32 { n % TWO_32 }

  /** vector::at finds the byte i after the offset. */
  predicate Has(p: seq<byte>, offset: uint32, i: nat) { Wrap(offset + i) < |p| }

  predicate InRange(p: seq<byte>, offset: uint32, n: nat) {
    forall i :: 0 <= i < n ==> Has(p, offset, i)
  }

  /** readr2cppacketasuint32 */
  function ReadWord(p: seq<byte>, offset: uint32): Read<uint32> {
    if Wrap(offset + 4) > Wrap(|p|) then Short
    else if Has(p, offset, 0) && Has(p, offset, 1) && Has(p, offset, 2) && Has(p, offset, 3) then
      Got(Word(p[Wrap(offset)], p[Wrap(offset + 1)], p[Wrap(offset + 2)], p[Wrap(offset + 3)]), Wrap(offset + 4))
    else Lost
  }

  /** readbytesfromr2cppacket */
  function ReadBytes(p: seq<byte>, offset: uint32, n: uint32): Read<seq<byte>> {
    if Wrap(offset + n) > Wrap(|p|) then Short
    else if InRange(p, offset, n) then
      Got(seq(n, i requires 0 <= i < n && Has(p, offset, i) => p[Wrap(offset + i)]), Wrap(offset + n))
    else Lost
  }

  // ------------------------------------------------------------- first pass

  datatype Verdict = Accepted | Rejected | RejectedLost

  /** The loop of validateparameterizedcommandcontent and the check behind it. */
  function ValidateParametersFrom(content: seq<byte>, offset: uint32, count: nat): Verdict
    decreases count
  {
    if count == 0 then if offset == Wrap(|content|) then Accepted else Rejected
    else
      match ReadWord(content, Wrap(offset + 4))
      case Short => Rejected
      case Lost => RejectedLost
      case Got(size, next) => ValidateParametersFrom(content, Wrap(next + size), count - 1)
  }

  function ValidateParameters(content: seq<byte>): Verdict {
    match ReadWord(content, 0)
    case Short => Rejected
    case Lost => RejectedLost
    case Got(count, next) => ValidateParametersFrom(content, next, count)
  }

  /** validatecommandcontent */
  function ValidateContent(code: uint32, content: seq<byte>): Verdict {
    match GetContentType(code)
    case ParameterizedContent => ValidateParameters(content)
    case NoContent => if Wrap(|content|) == 0 then Accepted else Rejected
    case DirectContent => Accepted
  }

  /** The loop of validatecommandsfromr2cppacket and the check behind it. */
  function ValidateCommandsFrom(body: seq<byte>, offset: uint32, count: nat): bool
    decreases count
  {
    if count == 0 then offset == Wrap(|body|)
    else
      var code := ReadWord(body, offset);
      if !code.Got? then false
      else
        var size := ReadWord(body, code.offset);
        if !size.Got? then false
        else
          var content := ReadBytes(body, size.offset, size.value);
          content.Got? && ValidateContent(code.value, content.value) == Accepted &&
          ValidateCommandsFrom(body, content.offset, count - 1)
  }

  function ValidateCommands(body: seq<byte>): bool {
    var count := ReadWord(body, 0);
    count.Got? && ValidateCommandsFrom(body, count.offset, count.value)
  }

  /** validater2cppacket; the read of the body is outside any handler. */
  function Validate(p: seq<byte>): Result<bool> {
    if Wrap(|p|) < MIN_PACKET_SIZE then Ok(false)
    else
      var magic := ReadWord(p, 0);
      if !magic.Got? then OutOfRange
      else if magic.value !in {R2CP_MAGIC, RRCP_MAGIC} then Ok(false)
      else
        var size := ReadWord(p, magic.offset);
        if !size.Got? then OutOfRange
        else if Wrap(|p|) != Wrap(MIN_PACKET_SIZE + size.value) then Ok(false)
        else if size.value == 0 then Ok(true)
        else
          var body := ReadBytes(p, size.offset, size.value);
          if !body.Got? then OutOfRange else Ok(ValidateCommands(body.value))
  }

  // ------------------------------------------------------------ second pass

  /** The loop of parseparameterizedcommandcontent. */
  function ParseParametersFrom(content: seq<byte>, offset: uint32, count: nat, allowed: set<uint32>): Result<seq<Entry>>
    decreases count
  {
    if count == 0 then Ok([])
    else
      var code := ReadWord(content, offset);
      if !code.Got? then OutOfRange
      else if code.value !in allowed then InvalidArgument
      else
        var size := ReadWord(content, code.offset);
        if !size.Got? then OutOfRange
        else
          var data := ReadBytes(content, size.offset, size.value);
          if !data.Got? then OutOfRange
          else
            match ParseParametersFrom(content, data.offset, count - 1, allowed)
            case Ok(rest) => Ok([Entry(code.value, data.value)] + rest)
            case OutOfRange => OutOfRange
            case InvalidArgument => InvalidArgument
  }

  function ParseParameters(code: uint32, content: seq<byte>): Result<seq<Entry>> {
    var count := ReadWord(content, 0);
    if !count.Got? then OutOfRange
    else ParseParametersFrom(content, count.offset, count.value, GetCommandParameters(code))
  }

  /** parsecommandcontent */
  function ParseContent(code: uint32, content: seq<byte>): Result<seq<Entry>> {
    match GetContentType(code)
    case DirectContent => Ok([Entry(NOPARAMETERS, content)])
    case ParameterizedContent => ParseParameters(code, content)
    case NoContent => Ok([])
  }

  function Cons<T>(x: seq<T>, r: Result<seq<T>>): Result<seq<T>> {
    match r
    case Ok(rest) => Ok(x + rest)
    case OutOfRange => OutOfRange
    case InvalidArgument => InvalidArgument
  }

  /** The loop of parser2cppacket: commands with an unknown code are skipped, commands
      with an undefined parameter discarded. */
  function ParseCommandsFrom(p: seq<byte>, offset: uint32, count: nat): Result<seq<Command>>
    decreases count
  {
    if count == 0 then Ok([])
    else
      var code := ReadWord(p, offset);
      if !code.Got? then OutOfRange
      else
        var size := ReadWord(p, code.offset);
        if !size.Got? then OutOfRange
        else if !IsValidCommand(code.value) then ParseCommandsFrom(p, Wrap(size.offset + size.value), count - 1)
        else
          var content := ReadBytes(p, size.offset, size.value);
          if !content.Got? then OutOfRange
          else
            match ParseContent(code.value, content.value)
            case OutOfRange => OutOfRange
            case InvalidArgument => ParseCommandsFrom(p, content.offset, count - 1)
            case Ok(parameters) =>
              Cons([Command(code.value, parameters)], ParseCommandsFrom(p, content.offset, count - 1))
  }

  /** parser2cppacket */
  function Parse(p: seq<byte>): Result<seq<Command>> {
    match Validate(p)
    case OutOfRange => OutOfRange
    case InvalidArgument => InvalidArgument
    case Ok(valid) =>
      if !valid then InvalidArgument
      else
        var count := ReadWord(p, MIN_PACKET_SIZE);
        if !count.Got? then OutOfRange else ParseCommandsFrom(p, count.offset, count.value)
  }

  // ---------------------------------------------------------- the wire format

  /** The four bytes of a number, most significant first. */
  function Word32(n: uint32): (w: seq<byte>)
    ensures |w| == 4
  {
    ToBigEndian(n, 4)
  }

  predicate Sized(es: seq<Entry>) {
    |es| < TWO_32 && forall i :: 0 <= i < |es| ==> |es[i].data| < TWO_32
  }

  /** Code, size, data. */
  function EntryBytes(e: Entry): seq<byte>
    requires |e.data| < TWO_32
  {
    Word32(e.code) + Word32(|e.data|) + e.data
  }

  function EntriesBytes(es: seq<Entry>): seq<byte>
    requires Sized(es)
  {
    if es == [] then [] else EntryBytes(es[0]) + EntriesBytes(es[1..])
  }

  /** The content of a parameterized command, and the body of a packet. */
  function ListBytes(es: seq<Entry>): seq<byte>
    requires Sized(es)
  {
    Word32(|es|) + EntriesBytes(es)
  }

  function Packet(magic: uint32, es: seq<Entry>): seq<byte>
    requires Sized(es) && |ListBytes(es)| < TWO_32
  {
    Word32(magic) + Word32(|ListBytes(es)|) + ListBytes(es)
  }
}
