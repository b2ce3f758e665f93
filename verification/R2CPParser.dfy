// R2CPParser.cpp: the parser object, whose reads all go through the stack of offsets.
// An exception is a result; each method says what it leaves on the stack.
module R2CPParser {
  import opened Bytes
  import opened R2CPDictionary
  import opened R2CPSpec

  class R2CPParser {
    var parsingOffsetStack: seq<uint32>

    constructor ()
      ensures parsingOffsetStack == []
    {
      parsingOffsetStack := [];
    }

    predicate NonEmpty() reads this { parsingOffsetStack != [] }

    function Back(): uint32
      reads this
      requires NonEmpty()
    {
      parsingOffsetStack[|parsingOffsetStack| - 1]
    }

    /** The stack without its last element. */
    function Below(): seq<uint32>
      reads this
      requires NonEmpty()
    {
      parsingOffsetStack[..|parsingOffsetStack| - 1]
    }

    method PushBack(offset: uint32)
      modifies this
      ensures NonEmpty() && Back() == offset && Below() == old(parsingOffsetStack)
    {
      parsingOffsetStack := parsingOffsetStack + [offset];
    }

    method PopBack()
      requires NonEmpty()
      modifies this
      ensures parsingOffsetStack == old(Below())
    {
      parsingOffsetStack := parsingOffsetStack[..|parsingOffsetStack| - 1];
    }

    /** What a read that went as r leaves of the stack it found. */
    static ghost predicate After<T>(stack: seq<uint32>, was: seq<uint32>, r: Read<T>)
      requires was != []
    {
      match r
      case Got(_, next) => stack == was[..|was| - 1] + [next]
      case Short => stack == was
      case Lost => stack == was[..|was| - 1]
    }

    /** checkifr2cppacketendisreached */
    method CheckIfEndIsReached(p: seq<byte>) returns (isEndReached: bool)
      requires NonEmpty()
      ensures isEndReached == (Back() == Wrap(|p|))
    {
      isEndReached := false;
      if parsingOffsetStack[|parsingOffsetStack| - 1] == |p| % TWO_32 {
        isEndReached := true;
      }
    }

    /** readr2cppacketasuint32 */
    method ReadUint32(p: seq<byte>) returns (r: Read<uint32>)
      requires NonEmpty()
      modifies this
      ensures r == ReadWord(p, old(Back())) && After(parsingOffsetStack, old(parsingOffsetStack), r)
    {
      hide After, Word;
      var offset := Back();
      PopBack();
      if (offset + 4) % TWO_32 <= |p| % TWO_32 {
        var i1, i2, i3 := (offset + 1) % TWO_32, (offset + 2) % TWO_32, (offset + 3) % TWO_32;
        if offset >= |p| || i1 >= |p| || i2 >= |p| || i3 >= |p| {
          AfterLost<uint32>(old(parsingOffsetStack));
          return Lost;
        }
        var value: uint32 := p[offset] as int * 0x100_0000 + p[i1] as int * 0x1_0000 + p[i2] as int * 0x100 + p[i3];
        WordSum(p[offset], p[i1], p[i2], p[i3]);
        PushBack((offset + 4) % TWO_32);
        r := Got(value, (offset + 4) % TWO_32);
        AfterGot(old(parsingOffsetStack), parsingOffsetStack, value, (offset + 4) % TWO_32);
      } else {
        PushBack(offset);
        r := Short;
        AfterShort<uint32>(old(parsingOffsetStack), parsingOffsetStack);
      }
    }

    static lemma WordSum(a: byte, b: byte, c: byte, d: byte)
      ensures a as int * 0x100_0000 + b as int * 0x1_0000 + c as int * 0x100 + d == Word(a, b, c, d)
    {
    }

    /** readbytesfromr2cppacket */
    method ReadBytesFrom(p: seq<byte>, n: uint32) returns (r: Read<seq<byte>>)
      requires NonEmpty()
      modifies this
      ensures r == ReadBytes(p, old(Back()), n) && After(parsingOffsetStack, old(parsingOffsetStack), r)
    {
      hide Word, After;
      var offset := Back();
      PopBack();
      if (offset + n) % TWO_32 <= |p| % TWO_32 {
        var bytes: seq<byte> := [];
        for i: int := 0 to n
          invariant parsingOffsetStack == old(Below())
          invariant |bytes| == i && InRange(p, offset, i)
          invariant forall j :: 0 <= j < i ==> Has(p, offset, j) && bytes[j] == p[Wrap(offset + j)]
        {
          if (offset + i) % TWO_32 >= |p| {
            assert !Has(p, offset, i);
            AfterLost<seq<byte>>(old(parsingOffsetStack));
            return Lost;
          }
          bytes := bytes + [p[(offset + i) % TWO_32]];
        }
        PushBack((offset + n) % TWO_32);
        r := Got(bytes, (offset + n) % TWO_32);
        assert bytes == ReadBytes(p, offset, n).value;
        AfterGot(old(parsingOffsetStack), parsingOffsetStack, bytes, (offset + n) % TWO_32);
      } else {
        PushBack(offset);
        r := Short;
        AfterShort<seq<byte>>(old(parsingOffsetStack), parsingOffsetStack);
      }
    }

    /** skipbytesfromr2cppacket */
    method Skip(n: uint32)
      requires NonEmpty()
      modifies this
      ensures NonEmpty() && Back() == Wrap(old(Back()) + n) && Below() == old(Below())
    {
      var offset := Back();
      PopBack();
      PushBack((offset + n) % TWO_32);
    }

    // ---------------------------------------------------------- first pass

    /** validateparameterizedcommandcontent. A read that loses its offset makes the last
        pop take the caller's. */
    method ValidateParameterized(content: seq<byte>) returns (ok: bool)
      requires NonEmpty()
      modifies this
      ensures ok == (ValidateParameters(content) == Accepted)
      ensures parsingOffsetStack ==
              if ValidateParameters(content) == RejectedLost then old(Below()) else old(parsingOffsetStack)
    {
      hide ReadWord, ValidateParametersFrom;
      PushBack(0);
      ok := true;
      var count := 0;
      var r := ReadUint32(content);
      if r.Got? {
        count := r.value;
      } else {
        ok := false;
      }
      var i := 0;
      while i < count && ok
        invariant 0 <= i <= count
        invariant ok ==> NonEmpty() && Below() == old(parsingOffsetStack)
        invariant ok ==> ValidateParameters(content) == ValidateParametersFrom(content, Back(), count - i)
        invariant !ok ==> ValidateParameters(content) != Accepted
        invariant !ok && ValidateParameters(content) == Rejected ==> NonEmpty() && Below() == old(parsingOffsetStack)
        invariant !ok && ValidateParameters(content) == RejectedLost ==> parsingOffsetStack == old(parsingOffsetStack)
      {
        ParameterValidated(content, Back(), count - i);
        Skip(4);
        var size := ReadUint32(content);
        if size.Got? {
          Skip(size.value);
        } else {
          ok := false;
        }
        i := i + 1;
      }
      if ok {
        EndValidated(content, Back());
        ok := CheckIfEndIsReached(content);
      }
      PopBack();
    }

    static lemma ParameterValidated(content: seq<byte>, offset: uint32, count: nat)
      requires count > 0
      ensures ValidateParametersFrom(content, offset, count) ==
              match ReadWord(content, Wrap(offset + 4))
              case Short => Rejected
              case Lost => RejectedLost
              case Got(size, next) => ValidateParametersFrom(content, Wrap(next + size), count - 1)
    {
    }

    static lemma EndValidated(content: seq<byte>, offset: uint32)
      ensures ValidateParametersFrom(content, offset, 0) == if offset == Wrap(|content|) then Accepted else Rejected
    {
    }

    /** validatecommandcontent */
    method ValidateCommandContent(code: uint32, content: seq<byte>) returns (ok: bool)
      requires NonEmpty()
      modifies this
      ensures ok == (ValidateContent(code, content) == Accepted)
      ensures parsingOffsetStack ==
              if ValidateContent(code, content) == RejectedLost then old(Below()) else old(parsingOffsetStack)
    {
      hide ValidateParameters;
      var contentType := GetContentType(code);
      ok := false;
      if contentType == ParameterizedContent {
        ok := ValidateParameterized(content);
      } else if contentType == NoContent {
        if |content| % TWO_32 == 0 {
          ok := true;
        }
      } else {
        ok := true;
      }
    }

    /** validatecommandsfromr2cppacket. Each lost offset costs the stack one element, and
        there are never more pops than elements. */
    method ValidateCommandList(body: seq<byte>) returns (ok: bool)
      requires NonEmpty()
      modifies this
      ensures ok == ValidateCommands(body)
      ensures ok ==> parsingOffsetStack == old(parsingOffsetStack)
      ensures parsingOffsetStack in {old(parsingOffsetStack), old(Below())}
    {
      hide ReadWord, ReadBytes, ValidateCommandsFrom, ValidateContent, Wrap;
      ok := false;
      PushBack(0);
      var count := ReadUint32(body);
      if count.Got? {
        var failed, threw, i := false, false, 0;
        while i < count.value && !failed && !threw
          invariant 0 <= i <= count.value
          invariant !failed && !threw ==> NonEmpty() && Below() == old(parsingOffsetStack)
          invariant !failed && !threw ==> ValidateCommands(body) == ValidateCommandsFrom(body, Back(), count.value - i)
          invariant failed || threw ==> !ValidateCommands(body)
          invariant Popping(parsingOffsetStack, old(parsingOffsetStack))
        {
          failed, threw := ValidateOneCommand(body, old(parsingOffsetStack), count.value - i);
          i := i + 1;
        }
        if !failed && !threw {
          CommandsEnd(body, Back());
          ok := CheckIfEndIsReached(body);
        }
      }
      PopBack();
    }

    /** One turn of its loop. */
    method ValidateOneCommand(body: seq<byte>, ghost outer: seq<uint32>, ghost count: nat)
        returns (failed: bool, threw: bool)
      requires outer != [] && NonEmpty() && Below() == outer && count > 0
      modifies this
      ensures !failed && !threw ==> NonEmpty() && Below() == outer
      ensures !failed && !threw ==>
                ValidateCommandsFrom(body, old(Back()), count) == ValidateCommandsFrom(body, Back(), count - 1)
      ensures failed || threw ==> !ValidateCommandsFrom(body, old(Back()), count)
      ensures Popping(parsingOffsetStack, outer)
    {
      hide ReadWord, ReadBytes, ValidateCommandsFrom, ValidateContent, Wrap;
      CommandValidated(body, Back(), count);
      failed, threw := false, false;
      var code := ReadUint32(body);
      if !code.Got? {
        threw := true;
        return;
      }
      var size := ReadUint32(body);
      if !size.Got? {
        threw := true;
        return;
      }
      var content := ReadBytesFrom(body, size.value);
      if !content.Got? {
        threw := true;
        return;
      }
      var valid := ValidateCommandContent(code.value, content.value);
      if !valid {
        failed := true;
      }
    }

    /** outer, or outer with one element on top. */
    static ghost predicate Popping(stack: seq<uint32>, outer: seq<uint32>) {
      stack == outer || (stack != [] && stack[..|stack| - 1] == outer)
    }

    static lemma CommandValidated(body: seq<byte>, offset: uint32, count: nat)
      requires count > 0
      ensures var code := ReadWord(body, offset);
        if !code.Got? then !ValidateCommandsFrom(body, offset, count)
        else
          var size := ReadWord(body, code.offset);
          if !size.Got? then !ValidateCommandsFrom(body, offset, count)
          else
            var content := ReadBytes(body, size.offset, size.value);
            if !content.Got? || ValidateContent(code.value, content.value) != Accepted then
              !ValidateCommandsFrom(body, offset, count)
            else
              ValidateCommandsFrom(body, offset, count) == ValidateCommandsFrom(body, content.offset, count - 1)
    {
      hide ReadWord, ReadBytes, ValidateContent, Wrap;
    }

    static lemma CommandsEnd(body: seq<byte>, offset: uint32)
      ensures ValidateCommandsFrom(body, offset, 0) == (offset == Wrap(|body|))
    {
    }

    /** validater2cppacket. Whatever was on the stack is gone afterwards, unless an
        exception escapes. */
    method ValidatePacket(p: seq<byte>) returns (r: Result<bool>)
      modifies this
      ensures r == Validate(p) && r != InvalidArgument
      ensures r.Ok? ==> parsingOffsetStack == []
    {
      hide ReadWord, ReadBytes, ValidateCommands;
      var ok := false;
      PushBack(0);
      if |p| % TWO_32 >= MIN_PACKET_SIZE {
        var magic := ReadUint32(p);
        if !magic.Got? {
          return OutOfRange;
        }
        if magic.value == R2CP_MAGIC || magic.value == RRCP_MAGIC {
          var size := ReadUint32(p);
          if !size.Got? {
            return OutOfRange;
          }
          if |p| % TWO_32 == (MIN_PACKET_SIZE + size.value) % TWO_32 {
            if size.value == 0 {
              ok := true;
            } else {
              var body := ReadBytesFrom(p, size.value);
              if !body.Got? {
                return OutOfRange;
              }
              ok := ValidateCommandList(body.value);
            }
          }
        }
      }
      parsingOffsetStack := [];
      r := Ok(ok);
    }

    // --------------------------------------------------------- second pass

    /** parseparameterizedcommandcontent */
    method ParseParameterized(code: uint32, content: seq<byte>) returns (r: Result<seq<Entry>>)
      modifies this
      ensures r == ParseParameters(code, content)
      ensures r != OutOfRange ==> parsingOffsetStack == old(parsingOffsetStack)
    {
      hide ReadWord, ReadBytes, ParseParametersFrom, GetCommandParameters;
      PushBack(0);
      var count := ReadUint32(content);
      if !count.Got? {
        return OutOfRange;
      }
      var allowed := GetCommandParameters(code);
      var invalid, parameters, i := false, [], 0;
      ConsNothing(ParseParametersFrom(content, Back(), count.value, allowed));
      while i < count.value && !invalid
        invariant 0 <= i <= count.value
        invariant NonEmpty() && Below() == old(parsingOffsetStack)
        invariant !invalid ==>
                    ParseParameters(code, content) ==
                    Cons(parameters, ParseParametersFrom(content, Back(), count.value - i, allowed))
        invariant invalid ==> ParseParameters(code, content) == InvalidArgument
      {
        ParameterParsed(content, Back(), count.value - i, allowed);
        var parameterCode := ReadUint32(content);
        if !parameterCode.Got? {
          return OutOfRange;
        }
        if parameterCode.value in allowed {
          var size := ReadUint32(content);
          if !size.Got? {
            return OutOfRange;
          }
          var data := ReadBytesFrom(content, size.value);
          if !data.Got? {
            return OutOfRange;
          }
          var p := Entry(parameterCode.value, data.value);
          ConsCons(parameters, p, ParseParametersFrom(content, Back(), count.value - i - 1, allowed));
          parameters := parameters + [p];
        } else {
          invalid := true;
        }
        i := i + 1;
      }
      if !invalid {
        ParametersEnd(content, Back(), allowed, parameters);
      }
      PopBack();
      if invalid {
        return InvalidArgument;
      }
      r := Ok(parameters);
    }

    static lemma ParameterParsed(content: seq<byte>, offset: uint32, count: nat, allowed: set<uint32>)
      requires count > 0
      ensures ParseParametersFrom(content, offset, count, allowed) ==
              var code := ReadWord(content, offset);
              if !code.Got? then OutOfRange
              else if code.value !in allowed then InvalidArgument
              else
                var size := ReadWord(content, code.offset);
                if !size.Got? then OutOfRange
                else
                  var data := ReadBytes(content, size.offset, size.value);
                  if !data.Got? then OutOfRange
                  else
                    var p := Entry(code.value, data.value);
                    Cons([p], ParseParametersFrom(content, data.offset, count - 1, allowed))
    {
      hide ReadWord, ReadBytes;
    }

    static lemma ParametersEnd(content: seq<byte>, offset: uint32, allowed: set<uint32>, ps: seq<Entry>)
      ensures Cons(ps, ParseParametersFrom(content, offset, 0, allowed)) == Ok(ps)
    {
      assert ps + [] == ps;
    }

    static lemma ConsCons<T>(xs: seq<T>, x: T, r: Result<seq<T>>)
      ensures Cons(xs, Cons([x], r)) == Cons(xs + [x], r)
    {
      if r.Ok? {
        assert xs + ([x] + r.value) == xs + [x] + r.value;
      }
    }

    static lemma ConsNothing<T>(r: Result<seq<T>>)
      ensures Cons([], r) == r
    {
      if r.Ok? {
        assert [] + r.value == r.value;
      }
    }

    /** parsecommandcontent */
    method ParseCommandContent(code: uint32, content: seq<byte>) returns (r: Result<seq<Entry>>)
      modifies this
      ensures r == ParseContent(code, content)
      ensures r != OutOfRange ==> parsingOffsetStack == old(parsingOffsetStack)
    {
      hide ParseParameters;
      var contentType := GetContentType(code);
      var parameters := [];
      if contentType == DirectContent {
        parameters := [Entry(NOPARAMETERS, content)];
      } else if contentType == ParameterizedContent {
        r := ParseParameterized(code, content);
        return;
      }
      r := Ok(parameters);
    }

    /** parser2cppacket: the commands of the packet, or the exception that escapes. Only
        after out_of_range is anything left on the stack, and that has no effect later. */
    method ParsePacket(p: seq<byte>) returns (r: Result<seq<Command>>)
      modifies this
      ensures r == Parse(p)
      ensures r != OutOfRange ==> parsingOffsetStack == []
    {
      hide Validate, ReadWord, ReadBytes, ParseCommandsFrom, IsValidCommand, ParseContent, Wrap;
      var valid := ValidatePacket(p);
      if valid == OutOfRange {
        return OutOfRange;
      }
      if valid != Ok(true) {
        return InvalidArgument;
      }
      PushBack(0);
      NoOffset();
      Skip(MIN_PACKET_SIZE);
      var count := ReadUint32(p);
      if !count.Got? {
        return OutOfRange;
      }
      var commands, i := [], 0;
      ConsNothing(ParseCommandsFrom(p, count.offset, count.value));
      while i < count.value
        invariant 0 <= i <= count.value
        invariant NonEmpty() && Below() == []
        invariant Parse(p) == Cons(commands, ParseCommandsFrom(p, Back(), count.value - i))
      {
        var threw, more := ParseOneCommand(p, commands, count.value - i);
        if threw {
          return OutOfRange;
        }
        commands := commands + more;
        i := i + 1;
      }
      CommandsStop(p, Back(), commands);
      parsingOffsetStack := [];
      r := Ok(commands);
    }

    /** One turn of its loop. */
    method ParseOneCommand(p: seq<byte>, ghost before: seq<Command>, ghost count: nat)
        returns (threw: bool, more: seq<Command>)
      requires NonEmpty() && Below() == [] && count > 0
      modifies this
      ensures threw ==> Cons(before, ParseCommandsFrom(p, old(Back()), count)) == OutOfRange
      ensures !threw ==> NonEmpty() && Below() == []
      ensures !threw ==>
                Cons(before, ParseCommandsFrom(p, old(Back()), count)) ==
                Cons(before + more, ParseCommandsFrom(p, Back(), count - 1))
    {
      hide ReadWord, ReadBytes, ParseCommandsFrom, IsValidCommand, ParseContent, Wrap, After;
      CommandParsed(p, Back(), count);
      threw, more := true, [];
      assert before + [] == before;
      ghost var stack := parsingOffsetStack;
      var code := ReadUint32(p);
      if !code.Got? {
        return;
      }
      OneLeft(parsingOffsetStack, stack, code);
      stack := parsingOffsetStack;
      var size := ReadUint32(p);
      if !size.Got? {
        return;
      }
      OneLeft(parsingOffsetStack, stack, size);
      if !IsValidCommand(code.value) {
        Skip(size.value);
      } else {
        stack := parsingOffsetStack;
        var content := ReadBytesFrom(p, size.value);
        if !content.Got? {
          return;
        }
        OneLeft(parsingOffsetStack, stack, content);
        var parameters := ParseCommandContent(code.value, content.value);
        if parameters == OutOfRange {
          return;
        }
        if parameters.Ok? {
          more := [Command(code.value, parameters.value)];
          ConsCons(before, more[0], ParseCommandsFrom(p, Back(), count - 1));
        }
      }
      threw := false;
    }

    static lemma NoOffset()
      ensures Wrap(0 + MIN_PACKET_SIZE) == MIN_PACKET_SIZE
    {
    }

    static lemma OneLeft<T>(stack: seq<uint32>, was: seq<uint32>, r: Read<T>)
      requires was != [] && was[..|was| - 1] == [] && After(stack, was, r) && r.Got?
      ensures stack == [r.offset]
    {
    }

    static lemma CommandsStop(p: seq<byte>, offset: uint32, cs: seq<Command>)
      ensures Cons(cs, ParseCommandsFrom(p, offset, 0)) == Ok(cs)
    {
      assert cs + [] == cs;
    }

    static lemma CommandParsed(p: seq<byte>, offset: uint32, count: nat)
      requires count > 0
      ensures var code := ReadWord(p, offset);
        var r := ParseCommandsFrom(p, offset, count);
        if !code.Got? then r == OutOfRange
        else
          var size := ReadWord(p, code.offset);
          if !size.Got? then r == OutOfRange
          else if !IsValidCommand(code.value) then r == ParseCommandsFrom(p, Wrap(size.offset + size.value), count - 1)
          else
            var content := ReadBytes(p, size.offset, size.value);
            if !content.Got? then r == OutOfRange
            else
              match ParseContent(code.value, content.value)
              case OutOfRange => r == OutOfRange
              case InvalidArgument => r == ParseCommandsFrom(p, content.offset, count - 1)
              case Ok(ps) => r == Cons([Command(code.value, ps)], ParseCommandsFrom(p, content.offset, count - 1))
    {
      hide ReadWord, ReadBytes, IsValidCommand, ParseContent, Wrap;
    }

    static lemma AfterLost<T>(was: seq<uint32>)
      requires was != []
      ensures var r: Read<T> := Lost; After(was[..|was| - 1], was, r)
    {
    }

    static lemma AfterShort<T>(was: seq<uint32>, stack: seq<uint32>)
      requires was != [] && stack != [] && stack[..|stack| - 1] == was[..|was| - 1]
      requires stack[|stack| - 1] == was[|was| - 1]
      ensures var r: Read<T> := Short; After(stack, was, r)
    {
      assert stack == stack[..|stack| - 1] + [stack[|stack| - 1]];
    }

    static lemma AfterGot<T>(was: seq<uint32>, stack: seq<uint32>, value: T, next: uint32)
      requires was != [] && stack != [] && stack[..|stack| - 1] == was[..|was| - 1] && stack[|stack| - 1] == next
      ensures After(stack, was, Got(value, next))
    {
      assert stack == stack[..|stack| - 1] + [stack[|stack| - 1]];
    }
  }
}
