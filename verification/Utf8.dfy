// The UTF-8 automaton of utf8_validator.hpp and its specification: the grammar
// of section 4 and the encoding of section 3 of RFC 3629.
module Utf8 {
  import opened Bytes

  const ACCEPT: nat := 0
  const REJECT: nat := 1

  // ---------------------------------------------------------- the automaton

  /** Entries 0x00..0xFF of the lookup table utf8d: the class of a byte. */
  function Class(i: byte): (r: nat)
    ensures r < 12
  {
    if i < 0x80 then 0
    else if i < 0x90 then 1
    else if i < 0xA0 then 9
    else if i < 0xC0 then 7
    else if i < 0xC2 then 8
    else if i < 0xE0 then 2
    else if i < 0xF0 then [0xa,0x3,0x3,0x3,0x3,0x3,0x3,0x3,0x3,0x3,0x3,0x3,0x3,0x4,0x3,0x3][i - 0xE0]
    else [0xb,0x6,0x6,0x6,0x5,0x8,0x8,0x8,0x8,0x8,0x8,0x8,0x8,0x8,0x8,0x8][i - 0xF0]
  }

  /** Entries 0x100 + 16 * state + class of utf8d: the next state, a row a state. */
  function Row(state: State, cls: nat): (r: State)
    requires cls < 16
  {
    if state <= 4 then LowRow(state, cls) else HighRow(state, cls)
  }

  function LowRow(state: State, cls: nat): (r: State)
    requires cls < 16
  {
    if state == 0 then [0x0,0x1,0x2,0x3,0x5,0x8,0x7,0x1,0x1,0x1,0x4,0x6,0x1,0x1,0x1,0x1][cls]
    else if state == 1 then 1
    else if state == 2 then [1,0,1,1,1,1,1,0,1,0,1,1,1,1,1,1][cls]
    else if state == 3 then [1,2,1,1,1,1,1,2,1,2,1,1,1,1,1,1][cls]
    else [1,1,1,1,1,1,1,2,1,1,1,1,1,1,1,1][cls]
  }

  function HighRow(state: State, cls: nat): (r: State)
    requires cls < 16
  {
    if state == 5 then [1,2,1,1,1,1,1,1,1,2,1,1,1,1,1,1][cls]
    else if state == 6 then [1,1,1,1,1,1,1,3,1,3,1,1,1,1,1,1][cls]
    else if state == 7 then [1,3,1,1,1,1,1,3,1,3,1,1,1,1,1,1][cls]
    else [1,3,1,1,1,1,1,1,1,1,1,1,1,1,1,1][cls]
  }

  type State = s: nat | s < 9

  /** What a validator object holds: the state and the code point being built. */
  datatype Decoder = Decoder(state: State, codepoint: uint32)

  const FRESH: Decoder := Decoder(ACCEPT, 0)

  function Next(state: State, b: byte): State {
    Row(state, Class(b))
  }

  /** 0xff >> class, as the number of low bits it keeps. */
  function KeptBits(cls: nat): (k: nat)
    ensures k <= 8
  {
    if cls < 8 then 8 - cls else 0
  }

  function LowBits(k: nat): (m: nat)
    requires k <= 8
    ensures 0 < m <= 256
  {
    [1, 2, 4, 8, 16, 32, 64, 128, 256][k]
  }

  /** decode: one byte. The two operands of "|" have no bit in common. */
  function Step(d: Decoder, b: byte): Decoder {
    var cls := Class(b);
    var codepoint :=
      if d.state != ACCEPT then b % 0x40 + (d.codepoint * 0x40) % TWO_32
      else b % LowBits(KeptBits(cls));
    Decoder(Next(d.state, b), codepoint)
  }

  /** validator::decode: stops at the first byte that leads to REJECT. */
  function Run(d: Decoder, s: seq<byte>): Decoder
    decreases |s|
  {
    if s == [] then d
    else
      var n := Step(d, s[0]);
      if n.state == REJECT then n else Run(n, s[1..])
  }

  /** validate */
  predicate Valid(s: seq<byte>) { Run(FRESH, s).state == ACCEPT }

  // ------------------------------------------------------- the specification

  predicate IsTail(b: byte) { 0x80 <= b <= 0xBF }

  /** UTF8-char of section 4 of RFC 3629. */
  predicate IsChar(c: seq<byte>) {
    if |c| == 1 then c[0] <= 0x7F
    else if |c| == 2 then 0xC2 <= c[0] <= 0xDF && IsTail(c[1])
    else if |c| == 3 then IsTail(c[2]) && (
        || (c[0] == 0xE0 && 0xA0 <= c[1] <= 0xBF)
        || (0xE1 <= c[0] <= 0xEC && IsTail(c[1]))
        || (c[0] == 0xED && 0x80 <= c[1] <= 0x9F)
        || (0xEE <= c[0] <= 0xEF && IsTail(c[1])))
    else if |c| == 4 then IsTail(c[2]) && IsTail(c[3]) && (
        || (c[0] == 0xF0 && 0x90 <= c[1] <= 0xBF)
        || (0xF1 <= c[0] <= 0xF3 && IsTail(c[1]))
        || (c[0] == 0xF4 && 0x80 <= c[1] <= 0x8F))
    else false
  }

  /** UTF8-octets of section 4 of RFC 3629: a sequence of characters. */
  ghost predicate WellFormed(s: seq<byte>)
    decreases |s|
  {
    s == [] || exists n :: 0 < n <= |s| && IsChar(s[..n]) && WellFormed(s[n..])
  }

  predicate IsScalar(v: nat) { v <= 0x10FFFF && !(0xD800 <= v <= 0xDFFF) }

  /** The octets of a character number (section 3 of RFC 3629). */
  function Encode(v: nat): (c: seq<byte>)
    requires IsScalar(v)
  {
    if v <= 0x7F then [v]
    else if v <= 0x7FF then [0xC0 + v / 0x40, 0x80 + v % 0x40]
    else if v <= 0xFFFF then [0xE0 + v / 0x40 / 0x40, 0x80 + v / 0x40 % 0x40, 0x80 + v % 0x40]
    else [0xF0 + v / 0x40 / 0x40 / 0x40, 0x80 + v / 0x40 / 0x40 % 0x40, 0x80 + v / 0x40 % 0x40, 0x80 + v % 0x40]
  }

  // -------------------------------------------- the table is the grammar

  /** The first row of transitions, by ranges of bytes. */
  lemma FirstByte(b: byte)
    ensures Next(ACCEPT, b) ==
      if b <= 0x7F then 0
      else if 0xC2 <= b <= 0xDF then 2
      else if b == 0xE0 then 4
      else if b == 0xED then 5
      else if 0xE1 <= b <= 0xEF then 3
      else if b == 0xF0 then 6
      else if 0xF1 <= b <= 0xF3 then 7
      else if b == 0xF4 then 8
      else REJECT
  {
  }

  /** The other rows: what may follow in each state. */
  lemma LaterByte(state: State, b: byte)
    requires state != ACCEPT
    ensures Next(state, b) ==
      if state == 2 && IsTail(b) then 0
      else if state == 3 && IsTail(b) then 2
      else if state == 4 && 0xA0 <= b <= 0xBF then 2
      else if state == 5 && 0x80 <= b <= 0x9F then 2
      else if state == 6 && 0x90 <= b <= 0xBF then 3
      else if state == 7 && IsTail(b) then 3
      else if state == 8 && 0x80 <= b <= 0x8F then 3
      else REJECT
  {
  }

  /** REJECT is absorbing. */
  lemma RejectAbsorbs(d: Decoder, s: seq<byte>)
    requires d.state == REJECT
    ensures Run(d, s).state == REJECT
  {
    if s != [] { LaterByte(d.state, s[0]); }
  }

  /** Feeding a piece and then another equals feeding both at once. */
  lemma {:induction false} RunConcat(d: Decoder, a: seq<byte>, b: seq<byte>)
    ensures Run(d, a).state != REJECT ==> Run(d, a + b) == Run(Run(d, a), b)
    ensures Run(d, a).state == REJECT ==> Run(d, a + b).state == REJECT
    decreases |a|
  {
    if a == [] {
      assert a + b == b;
      if d.state == REJECT { RejectAbsorbs(d, b); }
    } else {
      assert (a + b)[1..] == a[1..] + b;
      RunConcat(Step(d, a[0]), a[1..], b);
    }
  }

  /** The character number that one character stands for. */
  function Scalar(c: seq<byte>): nat
    requires IsChar(c)
  {
    if |c| == 1 then c[0]
    else if |c| == 2 then Join(c[0] - 0xC0, c[1])
    else if |c| == 3 then Join(Join(c[0] - 0xE0, c[1]), c[2])
    else Join(Join(Join(c[0] - 0xF0, c[1]), c[2]), c[3])
  }

  function Join(high: nat, tail: byte): nat
    requires IsTail(tail)
  {
    high * 0x40 + (tail - 0x80)
  }

  /** Scalar and Encode are inverse, so a character is the encoding of one number. */
  lemma ScalarInvertsEncode(c: seq<byte>)
    requires IsChar(c)
    ensures IsScalar(Scalar(c)) && Encode(Scalar(c)) == c
  {
    if |c| == 2 {
      JoinSplits(c[0] - 0xC0, c[1]);
    } else if |c| == 3 {
      ScalarInvertsEncode3(c);
    } else if |c| == 4 {
      ScalarInvertsEncode4(c);
    }
  }

  lemma ScalarInvertsEncode3(c: seq<byte>)
    requires IsChar(c) && |c| == 3
    ensures IsScalar(Scalar(c)) && Encode(Scalar(c)) == c
  {
    var a := c[0] - 0xE0;
    var x := Join(a, c[1]);
    assert 0x20 <= x <= 0x3FF && !(0x360 <= x <= 0x37F);
    JoinSplits(a, c[1]);
    JoinSplits(x, c[2]);
    EncodeThree(a, x, Join(x, c[2]), c);
  }

  lemma EncodeThree(a: nat, x: nat, v: nat, c: seq<byte>)
    requires 0x20 <= x <= 0x3FF && !(0x360 <= x <= 0x37F) && a < 16 && |c| == 3
    requires v / 0x40 == x && 0x80 + v % 0x40 == c[2]
    requires x / 0x40 == a && 0x80 + x % 0x40 == c[1] && 0xE0 + a == c[0]
    ensures IsScalar(v) && Encode(v) == c
  {
    assert v == 0x40 * x + v % 0x40;
  }

  lemma ScalarInvertsEncode4(c: seq<byte>)
    requires IsChar(c) && |c| == 4
    ensures IsScalar(Scalar(c)) && Encode(Scalar(c)) == c
  {
    var a := c[0] - 0xF0;
    var x := Join(a, c[1]);
    assert 0x10 <= x <= 0x10F;
    var y := Join(x, c[2]);
    JoinSplits(a, c[1]);
    JoinSplits(x, c[2]);
    JoinSplits(y, c[3]);
    EncodeFour(a, x, y, Join(y, c[3]), c);
  }

  lemma EncodeFour(a: nat, x: nat, y: nat, v: nat, c: seq<byte>)
    requires 0x10 <= x <= 0x10F && a < 8 && |c| == 4
    requires v / 0x40 == y && 0x80 + v % 0x40 == c[3]
    requires y / 0x40 == x && 0x80 + y % 0x40 == c[2]
    requires x / 0x40 == a && 0x80 + x % 0x40 == c[1] && 0xF0 + a == c[0]
    ensures IsScalar(v) && Encode(v) == c
  {
    assert y == 0x40 * x + y % 0x40;
    assert v == 0x40 * y + v % 0x40;
  }

  lemma JoinSplits(high: nat, tail: byte)
    requires IsTail(tail)
    ensures Join(high, tail) / 0x40 == high && 0x80 + Join(high, tail) % 0x40 == tail
  {
  }

  lemma EncodeIsChar(v: nat)
    requires IsScalar(v)
    ensures IsChar(Encode(v)) && Scalar(Encode(v)) == v
  {
    if v > 0x7F {
      SplitJoins(v);
      if v > 0x7FF { SplitJoins(v / 0x40); }
      if v > 0xFFFF { SplitJoins(v / 0x40 / 0x40); }
    }
  }

  lemma SplitJoins(v: nat)
    ensures Join(v / 0x40, 0x80 + v % 0x40) == v
  {
  }

  /** What is left of the first byte of a longer character. */
  function Lead(c: seq<byte>): nat
    requires IsChar(c) && |c| > 1
  {
    if |c| == 2 then c[0] - 0xC0 else if |c| == 3 then c[0] - 0xE0 else c[0] - 0xF0
  }

  lemma FirstCodepoint(codepoint: uint32, c: seq<byte>)
    requires IsChar(c)
    ensures Step(Decoder(ACCEPT, codepoint), c[0]).codepoint == if |c| == 1 then c[0] else Lead(c)
  {
    hide Row, KeptBits, Class;
    KeptBitsOfLead(c[0]);
  }

  /** 0xff >> class keeps the payload bits of a leading byte. */
  lemma KeptBitsOfLead(b: byte)
    requires b <= 0x7F || 0xC2 <= b <= 0xF4
    ensures b % LowBits(KeptBits(Class(b))) ==
      if b <= 0x7F then b else if b <= 0xDF then b - 0xC0 else if b <= 0xEF then b - 0xE0 else b - 0xF0
  {
    if b <= 0x7F { assert Class(b) == 0; }
    else if b <= 0xDF { assert Class(b) == 2; }
    else if b == 0xE0 { assert Class(b) == 10; }
    else if b == 0xED { assert Class(b) == 4; }
    else if b <= 0xEF { assert Class(b) == 3; }
    else if b == 0xF0 { assert Class(b) == 11; }
    else if b <= 0xF3 { assert Class(b) == 6; }
    else { assert Class(b) == 5; }
  }

  lemma RunOne(d: Decoder, s: seq<byte>)
    requires s != [] && Step(d, s[0]).state != REJECT
    ensures Run(d, s) == Run(Step(d, s[0]), s[1..])
  {
  }

  lemma StepTail(d: Decoder, b: byte)
    requires d.state != ACCEPT && IsTail(b) && d.codepoint < 0x40_0000
    ensures Step(d, b).codepoint == Join(d.codepoint, b)
  {
  }

  /** From ACCEPT, one character leads back to ACCEPT with its number as code point. */
  lemma RunChar(codepoint: uint32, c: seq<byte>)
    requires IsChar(c)
    ensures c != [] && Scalar(c) <= 0x10FFFF
    ensures Run(Decoder(ACCEPT, codepoint), c) == Decoder(ACCEPT, Scalar(c))
  {
    var d0 := Decoder(ACCEPT, codepoint);
    FirstByte(c[0]);
    FirstCodepoint(codepoint, c);
    RunOne(d0, c);
    var d1 := Step(d0, c[0]);
    if |c| > 1 {
      LaterByte(d1.state, c[1]);
      StepTail(d1, c[1]);
      RunOne(d1, c[1..]);
      var d2 := Step(d1, c[1]);
      assert c[1..][1..] == c[2..];
      if |c| > 2 { RunLastTails(d2, c[2..]); }
    }
  }

  lemma RunLastTails(d: Decoder, t: seq<byte>)
    requires (|t| == 1 && d.state == 2) || (|t| == 2 && d.state == 3 && IsTail(t[1]))
    requires IsTail(t[0]) && d.codepoint < 0x1_0000
    ensures Run(d, t) ==
      Decoder(ACCEPT, if |t| == 1 then Join(d.codepoint, t[0]) else Join(Join(d.codepoint, t[0]), t[1]))
  {
    LaterByte(d.state, t[0]);
    StepTail(d, t[0]);
    RunOne(d, t);
    if |t| == 2 {
      var e := Step(d, t[0]);
      LaterByte(e.state, t[1]);
      StepTail(e, t[1]);
      RunOne(e, t[1..]);
    }
  }

  // ------------------------------------------- characters still incomplete

  /** The bytes p, the beginning of a character, lead from ACCEPT to state. */
  predicate Begun(state: State, p: seq<byte>) {
    if |p| == 1 then
      state == (if 0xC2 <= p[0] <= 0xDF then 2
                else if p[0] == 0xE0 then 4
                else if p[0] == 0xED then 5
                else if 0xE1 <= p[0] <= 0xEF then 3
                else if p[0] == 0xF0 then 6
                else if 0xF1 <= p[0] <= 0xF3 then 7
                else if p[0] == 0xF4 then 8
                else REJECT) && state != REJECT
    else if |p| == 2 then
      || (state == 2 && IsChar(p + [0x80]))
      || (state == 3 && IsChar(p + [0x80, 0x80]))
    else
      |p| == 3 && state == 2 && IsChar(p + [0x80])
  }

  lemma BegunFirst(b: byte)
    requires Next(ACCEPT, b) != REJECT
    ensures if Next(ACCEPT, b) == ACCEPT then IsChar([b]) else Begun(Next(ACCEPT, b), [b])
  {
    FirstByte(b);
  }

  /** Another byte completes the character or leaves a longer beginning. */
  lemma BegunGrows(state: State, p: seq<byte>, b: byte)
    requires Begun(state, p) && Next(state, b) != REJECT
    ensures if Next(state, b) == ACCEPT then IsChar(p + [b]) else Begun(Next(state, b), p + [b])
  {
    LaterByte(state, b);
  }

  /** Every beginning can be completed. */
  lemma BegunCompletes(state: State, p: seq<byte>) returns (t: seq<byte>)
    requires Begun(state, p)
    ensures IsChar(p + t)
  {
    t := if state == 2 then [0x80]
         else if state == 3 then [0x80, 0x80]
         else if state == 4 then [0xA0, 0x80]
         else if state == 5 then [0x80, 0x80]
         else if state == 6 then [0x90, 0x80, 0x80]
         else [0x80, 0x80, 0x80];
  }

  /** A run that goes on after the beginning p of a character and is not rejected
      either completes the character, n bytes later, or ends in the middle of it. */
  lemma {:induction false} FinishChar(d: Decoder, p: seq<byte>, s: seq<byte>) returns (n: nat, t: seq<byte>)
    requires Begun(d.state, p) && Run(d, s).state != REJECT
    ensures n <= |s| && if n > 0 then IsChar(p + s[..n])
                        else IsChar(p + s + t) && Run(d, s).state != ACCEPT
    decreases |s|
  {
    hide Row, Class, KeptBits;
    if s == [] {
      n := 0;
      t := BegunCompletes(d.state, p);
      assert p + s == p;
    } else {
      var q, e := p + [s[0]], Step(d, s[0]);
      BegunGrows(d.state, p, s[0]);
      if e.state == ACCEPT {
        n, t := 1, [];
        assert p + s[..1] == q;
      } else {
        n, t := FinishChar(e, q, s[1..]);
        assert p + s == q + s[1..];
        if n > 0 {
          assert p + s[..n + 1] == q + s[1..][..n];
          n := n + 1;
        }
      }
    }
  }

  /** The same from ACCEPT. */
  lemma FirstChar(codepoint: uint32, s: seq<byte>) returns (n: nat, t: seq<byte>)
    requires s != [] && Run(Decoder(ACCEPT, codepoint), s).state != REJECT
    ensures n <= |s| && if n > 0 then IsChar(s[..n])
                        else IsChar(s + t) && Run(Decoder(ACCEPT, codepoint), s).state != ACCEPT
  {
    var d := Decoder(ACCEPT, codepoint);
    var e := Step(d, s[0]);
    BegunFirst(s[0]);
    if e.state == ACCEPT {
      n, t := 1, [];
      assert s[..1] == [s[0]];
    } else {
      n, t := FinishChar(e, [s[0]], s[1..]);
      assert [s[0]] + s[1..] == s;
      if n > 0 {
        assert [s[0]] + s[1..][..n] == s[..n + 1];
        n := n + 1;
      }
    }
  }

  // ---------------------------------------------------------- main theorems

  /** A run over a leading character continues from its number. */
  lemma RunPastChar(codepoint: uint32, s: seq<byte>, n: nat)
    requires n <= |s| && IsChar(s[..n])
    ensures n > 0 && Scalar(s[..n]) <= 0x10FFFF
    ensures Run(Decoder(ACCEPT, codepoint), s) == Run(Decoder(ACCEPT, Scalar(s[..n])), s[n..])
  {
    hide IsChar, Scalar;
    RunChar(codepoint, s[..n]);
    RunConcat(Decoder(ACCEPT, codepoint), s[..n], s[n..]);
    assert s[..n] + s[n..] == s;
  }

  lemma {:induction false} AcceptedIsWellFormed(codepoint: uint32, s: seq<byte>)
    requires Run(Decoder(ACCEPT, codepoint), s).state == ACCEPT
    ensures WellFormed(s)
    decreases |s|
  {
    if s != [] {
      var n, _ := FirstChar(codepoint, s);
      RunPastChar(codepoint, s, n);
      AcceptedIsWellFormed(Scalar(s[..n]), s[n..]);
    }
  }

  lemma {:induction false} WellFormedIsAccepted(codepoint: uint32, s: seq<byte>)
    requires WellFormed(s)
    ensures Run(Decoder(ACCEPT, codepoint), s).state == ACCEPT
    decreases |s|
  {
    if s != [] {
      var n :| 0 < n <= |s| && IsChar(s[..n]) && WellFormed(s[n..]);
      RunPastChar(codepoint, s, n);
      WellFormedIsAccepted(Scalar(s[..n]), s[n..]);
    }
  }

  /** validate accepts exactly the well-formed UTF-8 strings. */
  lemma ValidIffWellFormed(s: seq<byte>)
    ensures Valid(s) <==> WellFormed(s)
  {
    if Valid(s) { AcceptedIsWellFormed(0, s); }
    if WellFormed(s) { WellFormedIsAccepted(0, s); }
  }

  /** A string is not rejected exactly when more bytes could still make it well-formed. */
  lemma NotRejectedIffExtendable(s: seq<byte>)
    ensures Run(FRESH, s).state != REJECT <==> exists t :: WellFormed(s + t)
  {
    if Run(FRESH, s).state != REJECT {
      var t := Completion(0, s);
      assert WellFormed(s + t);
    }
    forall t | WellFormed(s + t) ensures Run(FRESH, s).state != REJECT {
      WellFormedIsAccepted(0, s + t);
      RunConcat(FRESH, s, t);
    }
  }

  lemma {:induction false} Completion(codepoint: uint32, s: seq<byte>) returns (t: seq<byte>)
    requires Run(Decoder(ACCEPT, codepoint), s).state != REJECT
    ensures WellFormed(s + t)
    decreases |s|
  {
    if s == [] {
      t := [];
    } else {
      var n, u := FirstChar(codepoint, s);
      if n == 0 {
        t := u;
        OneCharIsWellFormed(s + t);
      } else {
        RunPastChar(codepoint, s, n);
        t := Completion(Scalar(s[..n]), s[n..]);
        ExtendedIsWellFormed(s, n, t);
      }
    }
  }

  lemma ExtendedIsWellFormed(s: seq<byte>, n: nat, t: seq<byte>)
    requires 0 < n <= |s| && IsChar(s[..n]) && WellFormed(s[n..] + t)
    ensures WellFormed(s + t)
  {
    assert (s + t)[..n] == s[..n] && (s + t)[n..] == s[n..] + t;
  }

  lemma OneCharIsWellFormed(c: seq<byte>)
    requires IsChar(c)
    ensures WellFormed(c)
  {
    assert c[..|c|] == c && c[|c|..] == [];
  }

  lemma CharIsWellFormed(c: seq<byte>, rest: seq<byte>)
    requires IsChar(c) && WellFormed(rest)
    ensures WellFormed(c + rest)
  {
    var s := c + rest;
    assert s[..|c|] == c && s[|c|..] == rest;
  }

  /** Whenever a run is back in ACCEPT, the string is a well-formed one followed by
      one character, and the code point is that character's number. */
  lemma {:induction false} AcceptedCodepoint(d: Decoder, s: seq<byte>) returns (k: nat)
    requires d.state == ACCEPT && s != [] && Run(d, s).state == ACCEPT
    ensures k < |s| && WellFormed(s[..k]) && IsChar(s[k..])
    ensures var v := Run(d, s).codepoint; IsScalar(v) && Encode(v) == s[k..]
    decreases |s|
  {
    hide IsChar, Encode, IsScalar, WellFormed, Scalar, Run;
    var n, _ := FirstChar(d.codepoint, s);
    RunPastChar(d.codepoint, s, n);
    if n == |s| {
      k := 0;
      NothingWellFormed();
      assert s[..n] == s == s[0..] && s[..0] == [] && s[n..] == [];
      RunNothing(Decoder(ACCEPT, Scalar(s)));
      ScalarInvertsEncode(s);
    } else {
      k := AcceptedCodepoint(Decoder(ACCEPT, Scalar(s[..n])), s[n..]);
      SplitInside(s, n, k);
      k := n + k;
    }
  }

  lemma RunNothing(d: Decoder)
    ensures Run(d, []) == d
  {
  }

  lemma NothingWellFormed()
    ensures WellFormed([])
  {
  }

  lemma SplitInside(s: seq<byte>, n: nat, k: nat)
    requires n + k <= |s| && IsChar(s[..n]) && WellFormed(s[n..][..k])
    ensures WellFormed(s[..n + k]) && s[n..][k..] == s[n + k..]
  {
    hide IsChar;
    CharIsWellFormed(s[..n], s[n..][..k]);
    assert s[..n] + s[n..][..k] == s[..n + k];
    assert s[n..][k..] == s[n + k..];
  }

  /** No run that is not rejected has met the byte 0xFF. */
  lemma {:induction false} NeverFF(d: Decoder, s: seq<byte>)
    requires Run(d, s).state != REJECT
    ensures 0xFF !in s
    decreases |s|
  {
    if s != [] {
      if s[0] == 0xFF {
        FirstByte(0xFF);
        if d.state != ACCEPT { LaterByte(d.state, 0xFF); }
      } else {
        NeverFF(Step(d, s[0]), s[1..]);
      }
    }
  }

  /** Where a well-formed string may be cut: exactly not before a continuation byte. */
  lemma CutWellFormed(s: seq<byte>, k: nat)
    requires WellFormed(s) && k < |s|
    ensures WellFormed(s[..k]) <==> !IsTail(s[k])
  {
    hide WellFormed, Run;
    ValidIffWellFormed(s);
    ValidIffWellFormed(s[..k]);
    var d := Run(FRESH, s[..k]);
    RunConcat(FRESH, s[..k], s[k..]);
    assert s == s[..k] + s[k..];
    RunAt(d, s, k);
    RunRejects(d, s[k..]);
    RunRejects(Step(d, s[k]), s[k + 1..]);
    if d.state == ACCEPT {
      FirstByte(s[k]);
    } else {
      LaterByte(d.state, s[k]);
    }
  }

  lemma RunRejects(d: Decoder, s: seq<byte>)
    ensures d.state == REJECT ==> Run(d, s).state == REJECT
  {
    if d.state == REJECT {
      RejectAbsorbs(d, s);
    }
  }

  lemma RunAt(d: Decoder, s: seq<byte>, i: nat)
    requires i < |s|
    ensures Run(d, s[i..]) ==
      (var n := Step(d, s[i]); if n.state == REJECT then n else Run(n, s[i + 1..]))
  {
    assert s[i..][0] == s[i] && s[i..][1..] == s[i + 1..];
  }

  // ------------------------------------------------------------ the class

  /** class validator */
  class Validator {
    var state: State
    var codepoint: uint32

    function View(): Decoder
      reads this
    {
      Decoder(state, codepoint)
    }

    constructor ()
      ensures View() == FRESH
    {
      state := ACCEPT;
      codepoint := 0;
    }

    method Advance(b: byte)
      modifies this
      ensures View() == Step(old(View()), b)
    {
      var cls := Class(b);
      codepoint :=
        if state != ACCEPT then b % 0x40 + (codepoint * 0x40) % TWO_32
        else b % LowBits(KeptBits(cls));
      state := Row(state, cls);
    }

    method Consume(b: byte) returns (ok: bool)
      modifies this
      ensures View() == Step(old(View()), b) && ok == (View().state != REJECT)
    {
      Advance(b);
      ok := state != REJECT;
    }

    /** decode over a range; the range is the bytes s. */
    method Decode(s: seq<byte>) returns (ok: bool)
      modifies this
      ensures View() == Run(old(View()), s)
      ensures ok ==> View().state != REJECT || s == []
      ensures !ok ==> View().state == REJECT
    {
      var i := 0;
      while i < |s|
        invariant i <= |s|
        invariant Run(old(View()), s) == Run(View(), s[i..])
        invariant i > 0 ==> View().state != REJECT
      {
        RunAt(View(), s, i);
        Advance(s[i]);
        if state == REJECT { return false; }
        i := i + 1;
      }
      ok := true;
    }

    method Complete() returns (ok: bool)
      ensures ok == (View().state == ACCEPT)
    {
      ok := state == ACCEPT;
    }

    method Reset()
      modifies this
      ensures View() == FRESH
    {
      state := ACCEPT;
      codepoint := 0;
    }
  }

  method Validate(s: seq<byte>) returns (ok: bool)
    ensures ok == Valid(s)
    ensures ok <==> WellFormed(s)
  {
    var v := new Validator();
    ok := v.Decode(s);
    if ok { ok := v.Complete(); }
    ValidIffWellFormed(s);
  }
}
