// Base64.cpp: both directions, with characters as their ASCII bytes.
module Base64 {
  import opened Bytes

  const PAD: byte := 61
  const ZERO: byte := 65

  /** base64_chars: the character of a six-bit value. */
  function Digit(n: nat): (c: byte)
    requires n < 64
    ensures IsDigit(c) && Value(c) == n
  {
    if n < 26 then 65 + n
    else if n < 52 then 97 + (n - 26)
    else if n < 62 then 48 + (n - 52)
    else if n == 62 then 43
    else 47
  }

  /** is_base64 */
  predicate IsDigit(c: byte) {
    65 <= c <= 90 || 97 <= c <= 122 || 48 <= c <= 57 || c == 43 || c == 47
  }

  /** base64_chars.find */
  function Value(c: byte): (n: nat)
    requires IsDigit(c)
    ensures n < 64
  {
    if 65 <= c <= 90 then c - 65
    else if 97 <= c <= 122 then c - 97 + 26
    else if 48 <= c <= 57 then c - 48 + 52
    else if c == 43 then 62
    else 63
  }

  lemma DigitInverse(c: byte)
    requires IsDigit(c)
    ensures Digit(Value(c)) == c
  {
  }

  // -------------------------------------------- section 4 of RFC 4648

  function Encoded(b: seq<byte>): seq<byte>
    decreases |b|
  {
    if b == [] then []
    else if |b| == 1 then Quad(b[0], 0, 0)[..2] + [PAD, PAD]
    else if |b| == 2 then Quad(b[0], b[1], 0)[..3] + [PAD]
    else Quad(b[0], b[1], b[2]) + Encoded(b[3..])
  }

  function Quad(a: byte, b: byte, c: byte): (q: seq<byte>)
    ensures |q| == 4
  {
    [Digit(a / 4), Digit(a % 4 * 16 + b / 16), Digit(b % 16 * 4 + c / 64), Digit(c % 64)]
  }

  /** The digits before the first character that is none. */
  function Digits(s: seq<byte>): (ds: seq<byte>)
    ensures AllDigits(ds) && ds <= s && (|ds| < |s| ==> !IsDigit(s[|ds|]))
    decreases |s|
  {
    if s == [] || !IsDigit(s[0]) then [] else [s[0]] + Digits(s[1..])
  }

  predicate AllDigits(ds: seq<byte>) { forall i :: 0 <= i < |ds| ==> IsDigit(ds[i]) }

  /** Four digits make three bytes; of a rest the whole bytes are taken. */
  function FromDigits(ds: seq<byte>): seq<byte>
    requires AllDigits(ds)
    decreases |ds|
  {
    if |ds| < 2 then []
    else if |ds| == 2 then Triple(ds[0], ds[1], ZERO, ZERO)[..1]
    else if |ds| == 3 then Triple(ds[0], ds[1], ds[2], ZERO)[..2]
    else Triple(ds[0], ds[1], ds[2], ds[3]) + FromDigits(ds[4..])
  }

  function Triple(a: byte, b: byte, c: byte, d: byte): (t: seq<byte>)
    requires IsDigit(a) && IsDigit(b) && IsDigit(c) && IsDigit(d)
    ensures |t| == 3
  {
    [Value(a) * 4 + Value(b) / 16, Value(b) % 16 * 16 + Value(c) / 4, Value(c) % 4 * 64 + Value(d)]
  }

  function Decoded(s: seq<byte>): seq<byte> { FromDigits(Digits(s)) }

  lemma {:induction false} EncodedLength(b: seq<byte>)
    ensures |Encoded(b)| == 4 * ((|b| + 2) / 3)
    decreases |b|
  {
    hide Quad;
    if |b| > 2 {
      EncodedLength(b[3..]);
    }
  }

  lemma Parts(x: nat, y: nat)
    ensures y < 4 ==> (x * 4 + y) / 4 == x && (x * 4 + y) % 4 == y
    ensures y < 16 ==> (x * 16 + y) / 16 == x && (x * 16 + y) % 16 == y
    ensures y < 64 ==> (x * 64 + y) / 64 == x && (x * 64 + y) % 64 == y
  {
  }

  lemma Rejoined(x: nat)
    ensures x / 4 * 4 + x % 4 == x && x / 16 * 16 + x % 16 == x && x / 64 * 64 + x % 64 == x
    ensures x < 0x100 ==> x / 4 < 64 && x / 16 < 16 && x / 64 < 4
    ensures x < 64 ==> x / 16 < 4 && x / 4 < 16
  {
  }

  lemma QuadTriple(a: byte, b: byte, c: byte)
    ensures var q := Quad(a, b, c); AllDigits(q) && Triple(q[0], q[1], q[2], q[3]) == [a, b, c]
  {
    hide Digit, Value, IsDigit;
    Rejoined(a);
    Rejoined(b);
    Rejoined(c);
    Parts(a % 4, b / 16);
    Parts(b % 16, c / 64);
  }

  lemma TripleQuad(a: byte, b: byte, c: byte, d: byte)
    requires IsDigit(a) && IsDigit(b) && IsDigit(c) && IsDigit(d)
    ensures var t := Triple(a, b, c, d); Quad(t[0], t[1], t[2]) == [a, b, c, d]
  {
    hide Digit, Value, IsDigit;
    DigitInverse(a);
    DigitInverse(b);
    DigitInverse(c);
    DigitInverse(d);
    var v0, v1, v2, v3 := Value(a), Value(b), Value(c), Value(d);
    Rejoined(v1);
    Rejoined(v2);
    Parts(v0, v1 / 16);
    Parts(v1 % 16, v2 / 4);
    Parts(v2 % 4, v3);
  }

  lemma DigitsTail(ds: seq<byte>)
    requires AllDigits(ds) && ds != []
    ensures IsDigit(ds[0]) && AllDigits(ds[1..])
  {
  }

  lemma {:induction false} DigitsPrefix(ds: seq<byte>, rest: seq<byte>)
    requires AllDigits(ds)
    ensures Digits(ds + rest) == ds + Digits(rest)
    decreases |ds|
  {
    hide IsDigit, AllDigits, Digits;
    if ds != [] {
      DigitsTail(ds);
      DigitsPrefix(ds[1..], rest);
      assert (ds + rest)[1..] == ds[1..] + rest && (ds + rest)[0] == ds[0];
      DigitFirst(ds + rest);
      assert ds == [ds[0]] + ds[1..];
      assert [ds[0]] + (ds[1..] + Digits(rest)) == [ds[0]] + ds[1..] + Digits(rest);
    } else {
      assert ds + rest == rest;
    }
  }

  lemma DigitFirst(s: seq<byte>)
    requires s != [] && IsDigit(s[0])
    ensures Digits(s) == [s[0]] + Digits(s[1..])
  {
  }

  lemma NoDigits(s: seq<byte>)
    requires s == [] || !IsDigit(s[0])
    ensures Digits(s) == []
  {
  }

  lemma PadIsNone()
    ensures !IsDigit(PAD)
  {
  }

  lemma DigitsOf(ds: seq<byte>, rest: seq<byte>)
    requires AllDigits(ds) && (rest == [] || !IsDigit(rest[0]))
    ensures Digits(ds + rest) == ds
  {
    hide AllDigits, Digits, IsDigit;
    DigitsPrefix(ds, rest);
    NoDigits(rest);
    assert ds + [] == ds;
  }

  /** The last two digits encode nothing exactly when the last two bytes are zero. */
  lemma QuadZero(a: byte, b: byte)
    ensures Quad(a, b, 0)[3] == ZERO && Quad(a, 0, 0)[2] == ZERO
    ensures Value(Quad(a, b, 0)[2]) % 4 == 0 && Value(Quad(a, 0, 0)[1]) % 16 == 0
  {
    hide IsDigit;
    Parts(b % 16, 0);
    Parts(a % 4, 0);
  }

  lemma TripleZero(a: byte, b: byte, c: byte)
    requires IsDigit(a) && IsDigit(b) && IsDigit(c)
    ensures Value(c) % 4 == 0 ==> Triple(a, b, c, ZERO)[2] == 0
    ensures Value(b) % 16 == 0 ==> Triple(a, b, ZERO, ZERO)[1] == 0 && Triple(a, b, ZERO, ZERO)[2] == 0
  {
  }

  /** A last group of one or two bytes. */
  lemma TailEncoded(b: seq<byte>)
    requires |b| in {1, 2}
    ensures Decoded(Encoded(b)) == b && Canonical(Encoded(b))
  {
    hide Digit, Value, Digits, IsDigit, Quad, Triple;
    var q := if |b| == 1 then Quad(b[0], 0, 0) else Quad(b[0], b[1], 0);
    QuadTriple(b[0], if |b| == 1 then 0 else b[1], 0);
    QuadZero(b[0], if |b| == 1 then 0 else b[1]);
    assert AllDigits(q[..|b| + 1]);
    PadIsNone();
    DigitsOf(q[..|b| + 1], Encoded(b)[|b| + 1..]);
    assert Encoded(b) == q[..|b| + 1] + Encoded(b)[|b| + 1..];
  }

  /** A string of quadruples of digits, the last one padded with zero bits. */
  predicate Canonical(s: seq<byte>) {
    var ds := Digits(s);
    && |s| % 4 == 0 && |s| - |ds| <= 2
    && (forall i :: |ds| <= i < |s| ==> s[i] == PAD)
    && (ds != [] && |s| - |ds| == 1 ==> Value(ds[|ds| - 1]) % 4 == 0)
    && (ds != [] && |s| - |ds| == 2 ==> Value(ds[|ds| - 1]) % 16 == 0)
  }

  /** One group of four digits in front. */
  lemma GroupFirst(q: seq<byte>, s: seq<byte>)
    requires |q| == 4 && AllDigits(q)
    ensures Decoded(q + s) == Triple(q[0], q[1], q[2], q[3]) + Decoded(s)
    ensures Canonical(q + s) == Canonical(s)
  {
    hide Digits, IsDigit, Triple, Value;
    DigitsPrefix(q, s);
    var ds := Digits(s);
    assert (q + ds)[4..] == ds;
    assert forall i :: 0 <= i < |s| ==> (q + s)[i + 4] == s[i];
    assert forall i :: 4 <= i < |s| + 4 ==> (q + s)[i] == s[i - 4];
  }

  /** Decoding inverts encoding, and what is encoded is canonical. */
  lemma {:induction false} DecodeEncode(b: seq<byte>)
    ensures Decoded(Encoded(b)) == b && Canonical(Encoded(b))
    decreases |b|
  {
    hide Decoded, Quad, Triple, Canonical, AllDigits;
    if |b| in {1, 2} {
      TailEncoded(b);
    } else if b == [] {
      NothingEncoded();
    } else {
      QuadTriple(b[0], b[1], b[2]);
      GroupFirst(Quad(b[0], b[1], b[2]), Encoded(b[3..]));
      DecodeEncode(b[3..]);
      assert b == [b[0], b[1], b[2]] + b[3..];
    }
  }

  lemma NothingEncoded()
    ensures Decoded([]) == [] && Canonical([])
  {
  }

  /** Encoding inverts decoding on the canonical strings, and on no others. */
  lemma EncodeDecode(s: seq<byte>)
    ensures Encoded(Decoded(s)) == s <==> Canonical(s)
  {
    hide Encoded, Decoded, Canonical;
    DecodeEncode(Decoded(s));
    if Canonical(s) {
      CanonicalEncoded(s);
    }
  }

  lemma {:induction false} CanonicalEncoded(s: seq<byte>)
    requires Canonical(s)
    ensures Encoded(Decoded(s)) == s
    decreases |s|
  {
    hide Triple, Digits, Quad, Decoded;
    var ds := Digits(s);
    if |ds| >= 4 {
      var q := s[..4];
      assert q == ds[..4] && s == q + s[4..];
      GroupFirst(q, s[4..]);
      TripleQuad(q[0], q[1], q[2], q[3]);
      CanonicalEncoded(s[4..]);
      var t := Triple(q[0], q[1], q[2], q[3]);
      assert (t + Decoded(s[4..]))[3..] == Decoded(s[4..]);
    } else {
      CanonicalTail(s);
    }
  }

  lemma CanonicalTail(s: seq<byte>)
    requires Canonical(s) && |Digits(s)| < 4
    ensures Encoded(Decoded(s)) == s
  {
    hide Triple, Digits, Quad, Value;
    var ds := Digits(s);
    if |ds| >= 2 {
      ZeroIsDigit();
      var c := if |ds| == 2 then ZERO else ds[2];
      TripleQuad(ds[0], ds[1], c, ZERO);
      TripleZero(ds[0], ds[1], c);
    }
  }

  lemma ZeroIsDigit()
    ensures IsDigit(ZERO) && Value(ZERO) == 0
  {
  }

  // --------------------------------------------------------------- by numbers

  /** The alphabet in its order: capitals, small letters, digits, plus, slash. */
  lemma AlphabetInOrder(n: nat)
    requires n < 63
    ensures Digit(0) == 'A' as int && Digit(26) == 'a' as int && Digit(52) == '0' as int
    ensures Digit(62) == '+' as int && Digit(63) == '/' as int
    ensures n + 1 !in {26, 52, 62, 63} ==> Digit(n + 1) == Digit(n) + 1
  {
  }

  /** Three bytes and their four digits are the same number of 24 bits. */
  lemma QuadNumber(a: byte, b: byte, c: byte)
    ensures var q := Quad(a, b, c);
      && AllDigits(q)
      && Value(q[0]) * 0x4_0000 + Value(q[1]) * 0x1000 + Value(q[2]) * 0x40 + Value(q[3]) ==
         a as int * 0x1_0000 + b as int * 0x100 + c
  {
    hide Digit, Value, IsDigit;
    Rejoined(a);
    Rejoined(b);
    Rejoined(c);
  }

  /** One or two bytes at the end have the first digits of a group, and '=' for the others. */
  lemma PaddedGroup(a: byte, b: byte)
    ensures Encoded([a]) == Quad(a, 0, 0)[..2] + ['=' as int as byte, '=' as int as byte]
    ensures Encoded([a, b]) == Quad(a, b, 0)[..3] + ['=' as int as byte]
    ensures Encoded([]) == []
  {
    hide Quad;
  }

  /** Byte k of what the digits ds decode to, from the two digits that hold its bits. */
  function DigitBits(ds: seq<byte>, k: nat): int
    requires AllDigits(ds) && k / 3 * 4 + k % 3 + 1 < |ds|
  {
    var j := k / 3 * 4;
    if k % 3 == 0 then Value(ds[j]) * 4 + Value(ds[j + 1]) / 16
    else if k % 3 == 1 then Value(ds[j + 1]) % 16 * 16 + Value(ds[j + 2]) / 4
    else Value(ds[j + 2]) % 4 * 64 + Value(ds[j + 3])
  }

  /** What any string decodes to, canonical or not: the characters before the first outside
      the alphabet give three bytes for every four, and of the rest the whole bytes. */
  lemma DecodedAt(s: seq<byte>) returns (n: nat)
    ensures n <= |s| && (forall i :: 0 <= i < n ==> IsDigit(s[i])) && (n < |s| ==> !IsDigit(s[n]))
    ensures |Decoded(s)| == n * 3 / 4
    ensures forall k :: 0 <= k < n * 3 / 4 ==>
              k / 3 * 4 + k % 3 + 1 < n && Decoded(s)[k] as int == DigitBits(s[..n], k)
  {
    hide IsDigit, DigitBits, FromDigits;
    var ds := Digits(s);
    n := |ds|;
    assert ds == s[..n];
    FromDigitsLength(ds);
    forall k | 0 <= k < n * 3 / 4
      ensures k / 3 * 4 + k % 3 + 1 < n && Decoded(s)[k] as int == DigitBits(s[..n], k)
    {
      FromDigitsAt(ds, k);
    }
  }

  lemma {:induction false} FromDigitsLength(ds: seq<byte>)
    requires AllDigits(ds)
    ensures |FromDigits(ds)| == |ds| * 3 / 4
    decreases |ds|
  {
    hide Triple, IsDigit;
    if |ds| > 3 {
      FromDigitsLength(ds[4..]);
    }
  }

  lemma {:induction false} FromDigitsAt(ds: seq<byte>, k: nat)
    requires AllDigits(ds) && k < |ds| * 3 / 4
    ensures k / 3 * 4 + k % 3 + 1 < |ds| && |FromDigits(ds)| == |ds| * 3 / 4
    ensures FromDigits(ds)[k] as int == DigitBits(ds, k)
    decreases k
  {
    hide IsDigit, Value;
    FromDigitsLength(ds);
    if k > 2 {
      FromDigitsAt(ds[4..], k - 3);
      BitsBehind(ds, k);
    }
  }

  lemma BitsBehind(ds: seq<byte>, k: nat)
    requires AllDigits(ds) && k > 2 && |ds| > 3 && (k - 3) / 3 * 4 + (k - 3) % 3 + 1 < |ds[4..]|
    ensures k / 3 * 4 + k % 3 + 1 < |ds| && DigitBits(ds, k) == DigitBits(ds[4..], k - 3)
  {
    hide IsDigit, Value;
    assert (k - 3) / 3 == k / 3 - 1 && (k - 3) % 3 == k % 3;
  }
}
