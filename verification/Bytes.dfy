// Machine integers and the bit-level facts the frame code relies on. Bytes and
// words are ranges of int, so every wrap-around is written out; "^" is Xor.
module Bytes {
  type byte = x: int | 0 <= x < 0x100
  type uint32 = x: int | 0 <= x < 0x1_0000_0000
  type uint64 = x: int | 0 <= x < 0x1_0000_0000_0000_0000

  const TWO_32: nat := 0x1_0000_0000
  const TWO_64: nat := 0x1_0000_0000_0000_0000

  datatype Option<+T> = None | Some(value: T)

  function Min(a: nat, b: nat): nat { if a <= b then a else b }

  function Zeros(n: nat): (s: seq<byte>)
    ensures |s| == n && forall i :: 0 <= i < n ==> s[i] == 0
  {
    seq(n, _ => 0)
  }

  /** Exclusive or, bit by bit from the least significant end. */
  function Xor(a: nat, b: nat): nat
    decreases a + b
  {
    if a == 0 && b == 0 then 0 else (a + b) % 2 + 2 * Xor(a / 2, b / 2)
  }

  /** Xor acts on the lowest bit and on the rest independently. */
  lemma {:induction false} XorBit(a: nat, b: nat)
    ensures Xor(a, b) == (a + b) % 2 + 2 * Xor(a / 2, b / 2)
  {
    if a == 0 && b == 0 {
      assert Xor(0, 0) == 0;
    }
  }

  lemma BitCancels(a: nat, k: nat)
    ensures ((a + k) % 2 + k) % 2 == a % 2
  {
  }

  lemma Halves(a: nat)
    ensures a == a % 2 + 2 * (a / 2)
  {
  }

  lemma LowBit(x: nat, bit: nat, rest: nat)
    requires bit < 2 && x == bit + 2 * rest
    ensures x % 2 == bit && x / 2 == rest
  {
  }

  lemma LowBitSum(x: nat, bit: nat, rest: nat, k: nat)
    requires bit < 2 && x == bit + 2 * rest
    ensures (x + k) % 2 == (bit + k) % 2
  {
  }

  /** Masking twice gives the original back. */
  lemma {:induction false} XorInvolution(a: nat, k: nat)
    ensures Xor(Xor(a, k), k) == a
    decreases a + k
  {
    if a == 0 && k == 0 {
      assert Xor(0, 0) == 0;
    } else {
      var bit, rest := (a + k) % 2, Xor(a / 2, k / 2);
      var x := bit + 2 * rest;
      assert Xor(a, k) == x by { XorBit(a, k); }
      LowBit(x, bit, rest);
      LowBitSum(x, bit, rest, k);
      BitCancels(a, k);
      Halves(a);
      XorInvolution(a / 2, k / 2);
      calc {
        Xor(x, k);
        { XorBit(x, k); }
        (x + k) % 2 + 2 * Xor(x / 2, k / 2);
        a % 2 + 2 * (a / 2);
      }
    }
  }

  lemma {:induction false} XorZero(a: nat)
    ensures Xor(a, 0) == a
  {
    if a != 0 { XorZero(a / 2); }
  }

  lemma SumOfBits(a: nat, b: nat, c: nat, d: nat)
    requires c < 2 && d < 2
    ensures (2 * a + c + (2 * b + d)) % 2 == (c + d) % 2
    ensures (2 * a + c) / 2 == a && (2 * b + d) / 2 == b
  {
  }

  lemma XorNothing()
    ensures Xor(0, 0) == 0
  {
  }

  lemma {:induction false} XorDouble(a: nat, b: nat, c: nat, d: nat)
    requires c < 2 && d < 2
    ensures Xor(2 * a + c, 2 * b + d) == 2 * Xor(a, b) + Xor(c, d) && Xor(c, d) < 2
  {
    hide Xor;
    var x, y := 2 * a + c, 2 * b + d;
    SumOfBits(a, b, c, d);
    XorBit(x, y);
    XorBit(c, d);
    XorNothing();
  }

  lemma {:induction false} XorPair(a: nat, b: nat, c: nat, d: nat)
    requires c < 4 && d < 4
    ensures Xor(4 * a + c, 4 * b + d) == 4 * Xor(a, b) + Xor(c, d) && Xor(c, d) < 4
  {
    hide Xor;
    var c1, c0, d1, d0 := c / 2, c % 2, d / 2, d % 2;
    XorDouble(2 * a + c1, 2 * b + d1, c0, d0);
    XorDouble(a, b, c1, d1);
    XorDouble(c1, d1, c0, d0);
    assert 2 * (2 * a + c1) + c0 == 4 * a + c && 2 * (2 * b + d1) + d0 == 4 * b + d;
    assert 2 * c1 + c0 == c && 2 * d1 + d0 == d;
  }

  lemma {:induction false} XorNibble(a: nat, b: nat, c: nat, d: nat)
    requires c < 16 && d < 16
    ensures Xor(16 * a + c, 16 * b + d) == 16 * Xor(a, b) + Xor(c, d) && Xor(c, d) < 16
  {
    hide Xor;
    var c1, c0, d1, d0 := c / 4, c % 4, d / 4, d % 4;
    XorPair(4 * a + c1, 4 * b + d1, c0, d0);
    XorPair(a, b, c1, d1);
    XorPair(c1, d1, c0, d0);
    assert 4 * (4 * a + c1) + c0 == 16 * a + c && 4 * (4 * b + d1) + d0 == 16 * b + d;
    assert 4 * c1 + c0 == c && 4 * d1 + d0 == d;
  }

  /** Xor acts on the lowest byte and on the rest independently. */
  lemma {:induction false} XorByte(a: nat, b: nat, c: byte, d: byte)
    ensures Xor(256 * a + c, 256 * b + d) == 256 * Xor(a, b) + Xor(c, d) && Xor(c, d) < 256
  {
    hide Xor;
    var c1: nat, c0: nat, d1: nat, d0: nat := c / 16, c % 16, d / 16, d % 16;
    XorNibble(16 * a + c1, 16 * b + d1, c0, d0);
    XorNibble(a, b, c1, d1);
    XorNibble(c1, d1, c0, d0);
    assert 16 * (16 * a + c1) + c0 == 256 * a + c && 16 * (16 * b + d1) + d0 == 256 * b + d;
    assert 16 * c1 + c0 == c && 16 * d1 + d0 == d;
  }

  // ------------------------------------------------------- numbers as bytes

  /** Byte k of a number, the least significant first: it shifted right by 8k, cut to a byte. */
  function ByteAt(w: nat, k: nat): byte {
    if k == 0 then w % 0x100 else ByteAt(w / 0x100, k - 1)
  }

  function Pow256(n: nat): (r: nat)
    ensures r > 0
  {
    if n == 0 then 1 else 0x100 * Pow256(n - 1)
  }

  lemma Pow256Values()
    ensures Pow256(1) == 0x100 && Pow256(2) == 0x1_0000 && Pow256(3) == 0x100_0000
    ensures Pow256(4) == 0x1_0000_0000 && Pow256(5) == 0x100_0000_0000
    ensures Pow256(6) == 0x1_0000_0000_0000 && Pow256(7) == 0x100_0000_0000_0000
    ensures Pow256(8) == 0x1_0000_0000_0000_0000
  {
    assert Pow256(1) == 0x100 * Pow256(0);
    assert Pow256(2) == 0x100 * Pow256(1);
    assert Pow256(3) == 0x100 * Pow256(2);
    assert Pow256(4) == 0x100 * Pow256(3);
    assert Pow256(5) == 0x100 * Pow256(4);
    assert Pow256(6) == 0x100 * Pow256(5);
    assert Pow256(7) == 0x100 * Pow256(6);
  }

  /** A number in network byte order. */
  function BigEndian(s: seq<byte>): nat {
    if s == [] then 0 else 0x100 * BigEndian(s[..|s| - 1]) + s[|s| - 1]
  }

  /** The low n bytes of a number in network byte order. */
  function ToBigEndian(v: nat, n: nat): (s: seq<byte>)
    ensures |s| == n
  {
    if n == 0 then [] else ToBigEndian(v / 0x100, n - 1) + [v % 0x100]
  }

  lemma {:induction false} BigEndianBound(s: seq<byte>)
    ensures BigEndian(s) < Pow256(|s|)
  {
    if s != [] { BigEndianBound(s[..|s| - 1]); }
  }

  lemma {:induction false} BigEndianInverts(v: nat, n: nat)
    requires v < Pow256(n)
    ensures BigEndian(ToBigEndian(v, n)) == v
  {
    if n > 0 {
      BigEndianInverts(v / 0x100, n - 1);
      var s := ToBigEndian(v, n);
      assert s[..n - 1] == ToBigEndian(v / 0x100, n - 1);
    }
  }

  lemma {:induction false} ToBigEndianInverts(s: seq<byte>)
    ensures ToBigEndian(BigEndian(s), |s|) == s
  {
    if s != [] {
      var t, b := s[..|s| - 1], s[|s| - 1];
      ToBigEndianInverts(t);
      assert BigEndian(s) / 0x100 == BigEndian(t) && BigEndian(s) % 0x100 == b;
      assert t + [b] == s;
    }
  }

  function Word(a: byte, b: byte, c: byte, d: byte): uint32 {
    ((a as int * 0x100 + b) * 0x100 + c) * 0x100 + d
  }

  lemma ToBigEndianStep(n: nat, k: nat)
    requires k > 0
    ensures ToBigEndian(n, k) == ToBigEndian(n / 0x100, k - 1) + [n % 0x100]
    ensures k == 1 ==> ToBigEndian(n, k) == [n % 0x100]
  {
  }

  lemma ShiftByte(n: nat, k: nat)
    ensures ByteAt(n, 0) == n % 0x100 && ByteAt(n, k + 1) == ByteAt(n / 0x100, k)
  {
  }

  /** The four bytes of a word, most significant first, and the word they make. */
  lemma WordBytes(w: uint32)
    ensures ToBigEndian(w, 4) == [ByteAt(w, 3), ByteAt(w, 2), ByteAt(w, 1), ByteAt(w, 0)]
    ensures Word(ByteAt(w, 3), ByteAt(w, 2), ByteAt(w, 1), ByteAt(w, 0)) == w
  {
    hide ToBigEndian, ByteAt;
    var x1: nat := w / 0x100;
    var x2: nat := x1 / 0x100;
    var x3: nat := x2 / 0x100;
    assert x3 / 0x100 == 0;
    ToBigEndianStep(w, 4);
    ToBigEndianStep(x1, 3);
    ToBigEndianStep(x2, 2);
    ToBigEndianStep(x3, 1);
    ShiftByte(w, 0);
    ShiftByte(w, 1);
    ShiftByte(w, 2);
    ShiftByte(x1, 0);
    ShiftByte(x1, 1);
    ShiftByte(x2, 0);
    ShiftByte(x3, 0);
  }

  /** Two bytes and eight, most significant first. */
  lemma TwoBytes(n: nat)
    requires n < 0x1_0000
    ensures ToBigEndian(n, 2) == [n / 0x100, n % 0x100]
  {
    ToBigEndianStep(n, 2);
    ToBigEndianStep(n / 0x100, 1);
  }

  lemma EightBytes(n: uint64)
    ensures ToBigEndian(n, 8) ==
      [n / 0x100_0000_0000_0000, n / 0x1_0000_0000_0000 % 0x100, n / 0x100_0000_0000 % 0x100, n / 0x1_0000_0000 % 0x100,
       n / 0x100_0000 % 0x100, n / 0x1_0000 % 0x100, n / 0x100 % 0x100, n % 0x100]
  {
    hide ToBigEndian;
    var high: nat := n / 0x1_0000_0000;
    LastFour(n, 8);
    LastFour(high, 4);
    assert high / 0x100_0000 == n / 0x100_0000_0000_0000 && high / 0x1_0000 == n / 0x1_0000_0000_0000;
    assert high / 0x100 == n / 0x100_0000_0000;
    NoBytes(high / 0x1_0000_0000);
  }

  lemma LastFour(n: nat, k: nat)
    requires k >= 4
    ensures ToBigEndian(n, k) == ToBigEndian(n / 0x1_0000_0000, k - 4) +
            [n / 0x100_0000 % 0x100, n / 0x1_0000 % 0x100, n / 0x100 % 0x100, n % 0x100]
  {
    hide ToBigEndian;
    var n1: nat := n / 0x100;
    var n2: nat := n / 0x1_0000;
    var n3: nat := n / 0x100_0000;
    assert n1 / 0x100 == n2 && n2 / 0x100 == n3 && n3 / 0x100 == n / 0x1_0000_0000;
    ToBigEndianStep(n, k);
    ToBigEndianStep(n1, k - 1);
    ToBigEndianStep(n2, k - 2);
    ToBigEndianStep(n3, k - 3);
  }

  lemma NoBytes(n: nat)
    ensures ToBigEndian(n, 0) == []
  {
  }

  /** Four bytes are those of the word they make. */
  lemma WordOfBytes(a: byte, b: byte, c: byte, d: byte)
    ensures ToBigEndian(Word(a, b, c, d), 4) == [a, b, c, d]
  {
    hide ToBigEndian;
    var x: nat := a as int * 0x100 + b;
    var y: nat := x * 0x100 + c;
    LastByte(y, d);
    LastByte(x, c);
    LastByte(a, b);
    ToBigEndianStep(y * 0x100 + d, 4);
    ToBigEndianStep(y, 3);
    ToBigEndianStep(x, 2);
    ToBigEndianStep(a, 1);
  }

  lemma LastByte(x: nat, b: byte)
    ensures (x * 0x100 + b) / 0x100 == x && (x * 0x100 + b) % 0x100 == b
  {
  }

  // ------------------------------------------------- streams cut into chunks

  function Concat(chunks: seq<seq<byte>>): seq<byte> {
    if chunks == [] then [] else chunks[0] + Concat(chunks[1..])
  }

  lemma {:induction false} ConcatSnoc(chunks: seq<seq<byte>>, k: nat)
    requires k < |chunks|
    ensures Concat(chunks[..k + 1]) == Concat(chunks[..k]) + chunks[k]
  {
    if k == 0 {
      assert chunks[..1] == [chunks[0]];
    } else {
      assert chunks[..k + 1][1..] == chunks[1..][..k] && chunks[..k][1..] == chunks[1..][..k - 1];
      ConcatSnoc(chunks[1..], k - 1);
    }
  }

  lemma {:induction false} ConcatSplit(chunks: seq<seq<byte>>, k: nat)
    requires k <= |chunks|
    ensures Concat(chunks) == Concat(chunks[..k]) + Concat(chunks[k..])
  {
    if k > 0 {
      assert chunks[..k][1..] == chunks[1..][..k - 1] && chunks[1..][k - 1..] == chunks[k..];
      ConcatSplit(chunks[1..], k - 1);
    } else {
      assert chunks[0..] == chunks;
    }
  }
}
