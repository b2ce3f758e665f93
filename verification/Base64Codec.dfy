// Base64.cpp: the two loops, over their arrays of three and four characters.
module Base64Codec {
  import opened Bytes
  import opened Base64

  // ----------------------------------------------------------------- encode

  lemma {:induction false} EncodedAppend(a: seq<byte>, g: seq<byte>)
    requires |a| % 3 == 0
    ensures Encoded(a + g) == Encoded(a) + Encoded(g)
    decreases |a|
  {
    hide Quad;
    if a == [] {
      assert a + g == g;
    } else {
      assert (a + g)[3..] == a[3..] + g;
      EncodedAppend(a[3..], g);
    }
  }

  /** Three bytes to four six-bit values. */
  method Split(c3: array<byte>, c4: array<byte>)
    requires c3.Length == 3 && c4.Length == 4 && c3 != c4
    modifies c4
    ensures forall k :: 0 <= k < 4 ==> c4[k] < 64 && Digit(c4[k]) == Quad(old(c3[0]), old(c3[1]), old(c3[2]))[k]
  {
    hide Digit;
    var a, b, c := c3[0], c3[1], c3[2];
    c4[0] := a / 4;
    c4[1] := a % 4 * 16 + b / 16;
    c4[2] := b % 16 * 4 + c / 64;
    c4[3] := c % 64;
  }

  /** base64_encode. The count of remaining bytes has 32 bits. */
  method Base64Encode(buf: seq<byte>) returns (ret: seq<byte>)
    ensures ret == Encoded(buf[..|buf| % TWO_32])
  {
    hide Encoded, Quad;
    var c3, c4 := new byte[3], new byte[4];
    ret := [];
    var i, it, bufLen := 0, 0, |buf| % TWO_32;
    ghost var n := bufLen;
    assert n <= |buf|;
    NoneEncoded();
    while bufLen > 0
      invariant 0 <= bufLen && it + bufLen == n <= |buf| && 0 <= i < 3 && i <= it && (it - i) % 3 == 0
      invariant ret == Encoded(buf[..it - i])
      invariant c3[..i] == buf[it - i..it]
      modifies c3, c4
    {
      bufLen := bufLen - 1;
      ghost var was := c3[..];
      c3[i] := buf[it];
      SliceGrows(was, c3[..], buf, it, i);
      i, it := i + 1, it + 1;
      if i == 3 {
        ret := Emit(c3, c4, 4, ret);
        i := 0;
        GroupEncoded(buf, it, c3[..]);
      }
    }
    if i != 0 {
      var j := i;
      while j < 3
        invariant i <= j <= 3 && c3[..i] == buf[n - i..n]
        invariant forall k :: i <= k < 3 && k < j ==> c3[k] == 0
        modifies c3
      {
        c3[j] := 0;
        j := j + 1;
      }
      ret := Emit(c3, c4, i + 1, ret);
      ghost var digits, was := ret, i;
      while i < 3
        invariant was <= i <= 3 && ret == digits + seq(i - was, _ => PAD)
        modifies {}
      {
        ret := ret + [PAD];
        i := i + 1;
      }
      RestEncoded(buf, n, was, c3[..]);
    }
  }

  /** The first n digits of the three bytes. */
  method Emit(c3: array<byte>, c4: array<byte>, n: nat, ret: seq<byte>) returns (longer: seq<byte>)
    requires c3.Length == 3 && c4.Length == 4 && c3 != c4 && n <= 4
    modifies c4
    ensures longer == ret + Quad(c3[0], c3[1], c3[2])[..n]
  {
    hide Quad, Digit;
    Split(c3, c4);
    longer := ret;
    for j: int := 0 to n
      invariant longer == ret + Quad(c3[0], c3[1], c3[2])[..j]
      modifies {}
    {
      longer := longer + [Digit(c4[j])];
    }
  }

  /** One more element of s copied into the array. */
  lemma SliceGrows(was: seq<byte>, now: seq<byte>, s: seq<byte>, next: nat, i: nat)
    requires i < |was| && i <= next < |s| && was[..i] == s[next - i..next] && now == was[i := s[next]]
    ensures now[..i + 1] == s[next - i..next + 1]
  {
    assert now[..i + 1] == was[..i] + [s[next]];
  }

  lemma NoneEncoded()
    ensures Encoded([]) == []
  {
  }

  lemma GroupEncoded(buf: seq<byte>, it: nat, c3: seq<byte>)
    requires 3 <= it <= |buf| && it % 3 == 0 && |c3| == 3 && c3 == buf[it - 3..it]
    ensures Encoded(buf[..it]) == Encoded(buf[..it - 3]) + Quad(c3[0], c3[1], c3[2])
  {
    hide Quad;
    EncodedAppend(buf[..it - 3], c3);
    assert buf[..it - 3] + c3 == buf[..it];
    assert c3[3..] == [];
  }

  lemma RestEncoded(buf: seq<byte>, n: nat, i: nat, c3: seq<byte>)
    requires i in {1, 2} && i <= n <= |buf| && (n - i) % 3 == 0 && |c3| == 3
    requires c3[..i] == buf[n - i..n] && (forall k :: i <= k < 3 ==> c3[k] == 0)
    ensures Encoded(buf[..n]) == Encoded(buf[..n - i]) + Quad(c3[0], c3[1], c3[2])[..i + 1] + seq(3 - i, _ => PAD)
  {
    hide Quad, Encoded;
    var b := buf[..n - i];
    EncodedAppend(b, c3[..i]);
    assert buf[..n] == b + c3[..i];
    RestAlone(i, c3);
    assert Encoded(b) + (Quad(c3[0], c3[1], c3[2])[..i + 1] + seq(3 - i, _ => PAD)) ==
           Encoded(b) + Quad(c3[0], c3[1], c3[2])[..i + 1] + seq(3 - i, _ => PAD);
  }

  lemma RestAlone(i: nat, c3: seq<byte>)
    requires i in {1, 2} && |c3| == 3 && (forall k :: i <= k < 3 ==> c3[k] == 0)
    ensures Encoded(c3[..i]) == Quad(c3[0], c3[1], c3[2])[..i + 1] + seq(3 - i, _ => PAD)
  {
    hide Quad;
    assert seq(3 - i, _ => PAD) == if i == 1 then [PAD, PAD] else [PAD];
  }

  // ----------------------------------------------------------------- decode

  lemma {:induction false} FromDigitsAppend(a: seq<byte>, g: seq<byte>)
    requires |a| % 4 == 0 && AllDigits(a + g)
    ensures AllDigits(a) && AllDigits(g) && FromDigits(a + g) == FromDigits(a) + FromDigits(g)
    decreases |a|
  {
    hide Triple, IsDigit, AllDigits;
    BothDigits(a, g);
    if a == [] {
      NothingDecoded();
      assert a + g == g;
    } else {
      assert (a + g)[4..] == a[4..] + g;
      FromDigitsAppend(a[4..], g);
    }
  }

  lemma BothDigits(a: seq<byte>, g: seq<byte>)
    requires AllDigits(a + g)
    ensures AllDigits(a) && AllDigits(g) && (|a| >= 4 ==> AllDigits((a + g)[4..]) && AllDigits(a[4..]))
    ensures |a| >= 4 ==> IsDigit(a[0]) && IsDigit(a[1]) && IsDigit(a[2]) && IsDigit(a[3])
  {
    hide IsDigit;
    assert forall k :: 0 <= k < |a| ==> a[k] == (a + g)[k];
    assert forall k :: 0 <= k < |g| ==> g[k] == (a + g)[|a| + k];
  }

  /** base64_chars.find, which gives npos, cut to eight bits, for other characters. */
  function Find(c: byte): byte { if IsDigit(c) then Value(c) else 255 }

  /** Four six-bit values to three bytes; each sum is cut to eight bits. */
  function Joined(a: byte, b: byte, c: byte, d: byte): (t: seq<byte>)
    ensures |t| == 3
  {
    [Sum(a % 64 * 4, b / 16 % 4), Sum(b % 16 * 16, c / 4 % 16), Sum(c % 4 * 64, d)]
  }

  function Sum(a: byte, b: byte): byte { (a as int + b) % 0x100 }

  lemma JoinedValues(a: byte, b: byte, c: byte, d: byte)
    ensures var t := Joined(a, b, c, d);
      && (a < 64 && b < 64 ==> t[0] == a * 4 + b / 16)
      && (b < 64 && c < 64 ==> t[1] == b % 16 * 16 + c / 4)
      && (c < 64 && d < 64 ==> t[2] == c % 4 * 64 + d)
  {
  }

  /** i characters in an array of four, the others zero, to i - 1 bytes. */
  method Emit3(c4: array<byte>, c3: array<byte>, i: nat, ret: seq<byte>) returns (longer: seq<byte>)
    requires c3.Length == 3 && c4.Length == 4 && c3 != c4 && 1 <= i <= 4
    requires AllDigits(c4[..i]) && forall k :: i <= k < 4 ==> c4[k] == 0
    modifies c3, c4
    ensures longer == ret + FromDigits(old(c4[..i]))
  {
    hide Triple, Value, Joined, IsDigit;
    ghost var was := c4[..];
    for j: int := 0 to 4
      invariant forall k :: 0 <= k < 4 ==> c4[k] == if k < j then Find(was[k]) else was[k]
      modifies c4
    {
      c4[j] := Find(c4[j]);
    }
    var t := Joined(c4[0], c4[1], c4[2], c4[3]);
    c3[0], c3[1], c3[2] := t[0], t[1], t[2];
    longer := ret;
    for j: int := 0 to i - 1
      invariant longer == ret + c3[..j]
      modifies {}
    {
      longer := longer + [c3[j]];
    }
    JoinedIsDecoded(was, i);
    assert c3[..i - 1] == t[..i - 1];
  }

  lemma JoinedIsDecoded(was: seq<byte>, i: nat)
    requires |was| == 4 && 1 <= i <= 4 && AllDigits(was[..i])
    ensures Joined(Find(was[0]), Find(was[1]), Find(was[2]), Find(was[3]))[..i - 1] == FromDigits(was[..i])
  {
    hide IsDigit, Value, Joined;
    JoinedValues(Find(was[0]), Find(was[1]), Find(was[2]), Find(was[3]));
    forall k | 0 <= k < i ensures IsDigit(was[k]) && Find(was[k]) == Value(was[k]) {
      assert was[k] == was[..i][k];
    }
    if i == 4 {
      assert FromDigits(was[..4][4..]) == [];
    }
  }

  /** base64_decode; its counters are int. */
  method Base64Decode(s: seq<byte>) returns (ret: seq<byte>)
    requires |s| < 0x8000_0000
    ensures ret == Decoded(s)
  {
    hide Digits, FromDigits, IsDigit;
    var c4, c3 := new byte[4], new byte[3];
    ret := [];
    var i, next := 0, 0;
    NothingDecoded();
    while next < |s| && s[next] != PAD && IsDigit(s[next])
      invariant 0 <= i < 4 && i <= next <= |s| && (next - i) % 4 == 0
      invariant AllDigits(s[..next]) && AllDigits(s[..next - i])
      invariant ret == FromDigits(s[..next - i])
      invariant c4[..i] == s[next - i..next]
      modifies c3, c4
    {
      ghost var was := c4[..];
      c4[i] := s[next];
      SliceGrows(was, c4[..], s, next, i);
      i, next := i + 1, next + 1;
      MoreDigits(s, next);
      if i == 4 {
        GroupDecoded(s, next, 4);
        ret := Emit3(c4, c3, 4, ret);
        i := 0;
      }
    }
    StoppedAt(s, next);
    if i != 0 {
      var j := i;
      while j < 4
        invariant i <= j <= 4 && c4[..i] == s[next - i..next]
        invariant forall k :: i <= k < j ==> c4[k] == 0
        modifies c4
      {
        c4[j] := 0;
        j := j + 1;
      }
      GroupDecoded(s, next, i);
      ret := Emit3(c4, c3, i, ret);
    }
  }

  lemma NothingDecoded()
    ensures AllDigits([]) && FromDigits([]) == []
  {
  }

  lemma MoreDigits(s: seq<byte>, next: nat)
    requires 0 < next <= |s| && AllDigits(s[..next - 1]) && IsDigit(s[next - 1])
    ensures AllDigits(s[..next])
  {
  }

  lemma GroupDecoded(s: seq<byte>, next: nat, i: nat)
    requires i <= next <= |s| && (next - i) % 4 == 0 && AllDigits(s[..next])
    ensures AllDigits(s[..next - i]) && AllDigits(s[next - i..next])
    ensures FromDigits(s[..next]) == FromDigits(s[..next - i]) + FromDigits(s[next - i..next])
  {
    hide AllDigits, FromDigits;
    assert s[..next] == s[..next - i] + s[next - i..next];
    FromDigitsAppend(s[..next - i], s[next - i..next]);
  }

  lemma StoppedAt(s: seq<byte>, next: nat)
    requires next <= |s| && AllDigits(s[..next]) && (next < |s| ==> s[next] == PAD || !IsDigit(s[next]))
    ensures Digits(s) == s[..next]
  {
    hide AllDigits;
    assert s == s[..next] + s[next..];
    PadIsNone();
    DigitsOf(s[..next], s[next..]);
  }
}
