// XOR masking of frame payloads (frame.hpp): the byte-wise definition, the
// word-wise routines on rotating prepared keys, and why they all agree.
module Masking {
  import opened Bytes

  /** The masking_key_type union: key.c is the sequence, key.i is LittleEndian of it. */
  type MaskingKey = c: seq<byte> | |c| == 4 witness [0, 0, 0, 0]

  const NO_KEY: MaskingKey := [0, 0, 0, 0]

  // ---------------------------------------------------------------- words

  function LittleEndian(s: seq<byte>): nat {
    if s == [] then 0 else s[0] + 0x100 * LittleEndian(s[1..])
  }

  lemma {:induction false} LittleEndianByteAt(s: seq<byte>, k: nat)
    requires k < |s|
    ensures ByteAt(LittleEndian(s), k) == s[k]
  {
    hide ByteAt, LittleEndian;
    FirstByte(s);
    if k == 0 {
      ShiftByte(LittleEndian(s), 0);
    } else {
      ShiftByte(LittleEndian(s), k - 1);
      LittleEndianByteAt(s[1..], k - 1);
    }
  }

  lemma FirstByte(s: seq<byte>)
    requires s != []
    ensures LittleEndian(s) % 0x100 == s[0] && LittleEndian(s) / 0x100 == LittleEndian(s[1..])
  {
  }

  lemma {:induction false} LittleEndianBound(s: seq<byte>)
    ensures LittleEndian(s) < Pow256(|s|)
  {
    if s != [] { LittleEndianBound(s[1..]); }
  }

  lemma {:induction false} LittleEndianConcat(a: seq<byte>, b: seq<byte>)
    ensures LittleEndian(a + b) == LittleEndian(a) + Pow256(|a|) * LittleEndian(b)
  {
    if a == [] {
      assert a + b == b;
    } else {
      assert (a + b)[1..] == a[1..] + b;
      LittleEndianConcat(a[1..], b);
      Reassociate(a[0], LittleEndian(a[1..]), Pow256(|a| - 1), LittleEndian(b));
    }
  }

  lemma Reassociate(x: nat, y: nat, p: nat, z: nat)
    ensures x + 0x100 * (y + p * z) == x + 0x100 * y + (0x100 * p) * z
  {
  }

  lemma {:induction false} ByteAtStep(w: nat, q: nat, r: byte, k: nat)
    requires w == 0x100 * q + r
    ensures ByteAt(w, k) == if k == 0 then r else ByteAt(q, k - 1)
  {
    assert w % 0x100 == r && w / 0x100 == q;
  }

  /** Masking a word masks each of its bytes. */
  lemma {:induction false} XorByteAt(a: nat, b: nat, k: nat)
    ensures ByteAt(Xor(a, b), k) == Xor(ByteAt(a, k), ByteAt(b, k))
  {
    var a', b', c, d := a / 0x100, b / 0x100, a % 0x100, b % 0x100;
    assert Xor(a, b) == 0x100 * Xor(a', b') + Xor(c, d) && Xor(c, d) < 0x100 by {
      assert a == 0x100 * a' + c && b == 0x100 * b' + d;
      XorByte(a', b', c, d);
    }
    ByteAtStep(Xor(a, b), Xor(a', b'), Xor(c, d), k);
    ByteAtStep(a, a', c, k);
    ByteAtStep(b, b', d, k);
    if k > 0 { XorByteAt(a', b', k - 1); }
  }

  // -------------------------------------------------------- prepared keys

  /** prepare_masking_key on a machine with 8-byte words: the key twice. */
  function Prepare(key: MaskingKey): nat {
    LittleEndian(key) * TWO_32 + LittleEndian(key)
  }

  /** circshift_prepared_key, little-endian branch. The two shifted halves have
      no bit in common, so "|" is "+"; the left shift drops what leaves the word. */
  function Circshift(p: nat, offset: nat): nat
    requires offset < 8
  {
    if offset == 0 then p
    else ShiftRight(p, offset) + ShiftLeft(p, 8 - offset)
  }

  /** p >> 8*k */
  function ShiftRight(p: nat, k: nat): nat {
    if k == 0 then p else ShiftRight(p / 0x100, k - 1)
  }

  /** p << 8*k in a 64-bit word */
  function ShiftLeft(p: nat, k: nat): nat
    decreases k
  {
    if k == 0 then p else ShiftLeft((p * 0x100) % TWO_64, k - 1)
  }

  /** The prepared key that masks the bytes from position n of a payload on. */
  function PreparedAt(key: MaskingKey, n: nat): nat {
    Prepare(Rotated(key, n))
  }

  function Rotated(key: MaskingKey, n: nat): MaskingKey {
    key[n % 4..] + key[..n % 4]
  }

  lemma {:induction false} ShiftRightDrops(b: seq<byte>, k: nat)
    requires k <= |b|
    ensures ShiftRight(LittleEndian(b), k) == LittleEndian(b[k..])
  {
    if k > 0 {
      ShiftRightDrops(b[1..], k - 1);
      assert b[1..][k - 1..] == b[k..];
      assert LittleEndian(b) / 0x100 == LittleEndian(b[1..]);
    }
  }

  lemma {:induction false} ShiftLeftPads(b: seq<byte>, k: nat)
    requires |b| == 8 && k <= 8
    ensures ShiftLeft(LittleEndian(b), k) == LittleEndian(Zeros(k) + b[..8 - k])
    decreases k
  {
    if k == 0 {
      assert Zeros(0) + b[..8] == b;
    } else {
      hide ShiftLeft, LittleEndian;
      var c: seq<byte> := [0] + b[..7];
      ShiftedOnce(b, k);
      ShiftLeftPads(c, k - 1);
      assert Zeros(k - 1) + c[..8 - (k - 1)] == Zeros(k) + b[..8 - k];
    }
  }

  /** One byte to the left: the highest is lost. */
  lemma ShiftedOnce(b: seq<byte>, k: nat)
    requires |b| == 8 && k > 0
    ensures ShiftLeft(LittleEndian(b), k) == ShiftLeft(LittleEndian([0] + b[..7]), k - 1)
  {
    var c: seq<byte> := [0] + b[..7];
    var n: nat := LittleEndian(b);
    assert LittleEndian([0] + b) == n * 0x100 by { assert ([0] + b)[1..] == b; }
    assert LittleEndian([b[7]]) == b[7];
    assert [0] + b == c + [b[7]];
    hide LittleEndian;
    LittleEndianConcat(c, [b[7]]);
    LittleEndianBound(c);
    Pow256Values();
    LowWord64(n * 0x100, LittleEndian(c), b[7]);
  }

  lemma LowWord64(a: nat, b: nat, k: nat)
    requires a == b + TWO_64 * k && b < TWO_64
    ensures a % TWO_64 == b
  {
  }

  lemma {:induction false} LittleEndianZeros(n: nat)
    ensures LittleEndian(Zeros(n)) == 0
  {
    if n > 0 {
      assert Zeros(n)[1..] == Zeros(n - 1);
      LittleEndianZeros(n - 1);
    }
  }

  /** Shifting a word circularly rotates its bytes. */
  lemma {:induction false} CircshiftRotates(b: seq<byte>, offset: nat)
    requires |b| == 8 && offset < 8
    ensures Circshift(LittleEndian(b), offset) == LittleEndian(b[offset..] + b[..offset])
  {
    if offset == 0 {
      assert b[0..] + b[..0] == b;
    } else {
      ShiftRightDrops(b, offset);
      ShiftLeftPads(b, 8 - offset);
      LittleEndianConcat(Zeros(8 - offset), b[..offset]);
      LittleEndianZeros(8 - offset);
      LittleEndianConcat(b[offset..], b[..offset]);
    }
  }

  lemma {:induction false} PreparedTwice(key: MaskingKey)
    ensures Prepare(key) == LittleEndian(key + key) < TWO_64
    ensures LittleEndian(key) < TWO_32
  {
    Pow256Values();
    LittleEndianConcat(key, key);
    LittleEndianBound(key);
    LittleEndianBound(key + key);
  }

  /** Shifting a prepared key by n bytes prepares the key for the position n later. */
  lemma {:induction false} CircshiftPrepared(key: MaskingKey, n: nat, offset: nat)
    requires offset < 8
    ensures Circshift(PreparedAt(key, n), offset) == PreparedAt(key, n + offset)
  {
    var c: seq<byte>, d: seq<byte> := Rotated(key, n), Rotated(key, n + offset);
    PreparedTwice(c);
    PreparedTwice(d);
    CircshiftRotates(c + c, offset);
    assert (c + c)[offset..] + (c + c)[..offset] == d + d by {
      RotatedTwice(key, n, offset);
    }
  }

  lemma {:induction false} RotatedAt(key: MaskingKey, n: nat, i: nat)
    ensures Rotated(key, n)[i % 4] == key[(n + i) % 4]
  {
    var r, j := n % 4, i % 4;
    SameInFour(n + i, r + j, n / 4 + i / 4);
    if r + j >= 4 {
      SameInFour(r + j, r + j - 4, 1);
    }
  }

  lemma SameInFour(a: nat, b: nat, k: int)
    requires a == b + k * 4
    ensures a % 4 == b % 4
  {
  }

  lemma {:induction false} RotatedTwice(key: MaskingKey, n: nat, offset: nat)
    requires offset < 8
    ensures var c: seq<byte>, d: seq<byte> := Rotated(key, n), Rotated(key, n + offset);
            (c + c)[offset..] + (c + c)[..offset] == d + d
  {
    hide Rotated;
    var c: seq<byte>, d: seq<byte> := Rotated(key, n), Rotated(key, n + offset);
    var l, r := (c + c)[offset..] + (c + c)[..offset], d + d;
    forall i | 0 <= i < 8 ensures l[i] == r[i] {
      RotatedTwiceAt(key, n, offset, i);
      CircularAt(c + c, offset, i);
    }
  }

  lemma CircularAt(s: seq<byte>, offset: nat, i: nat)
    requires |s| == 8 && offset < 8 && i < 8
    ensures (s[offset..] + s[..offset])[i] == s[if offset + i < 8 then offset + i else offset + i - 8]
  {
  }

  lemma RotatedTwiceAt(key: MaskingKey, n: nat, offset: nat, i: nat)
    requires offset < 8 && i < 8
    ensures var c: seq<byte>, d: seq<byte> := Rotated(key, n), Rotated(key, n + offset);
      (c + c)[if offset + i < 8 then offset + i else offset + i - 8] == (d + d)[i]
  {
    hide Rotated;
    var j := if offset + i < 8 then offset + i else offset + i - 8;
    RotatedAt(key, n, offset + i);
    RotatedAt(key, n + offset, i);
    DoubledAt(Rotated(key, n), j);
    DoubledAt(Rotated(key, n + offset), i);
    SameInFour(offset + i, j, (offset + i - j) / 4);
    assert n + (offset + i) == n + offset + i;
  }

  lemma {:induction false} DoubledAt(c: seq<byte>, i: nat)
    requires |c| == 4 && i < 8
    ensures (c + c)[i] == c[i % 4]
  {
  }

  // ------------------------------------------------------- byte-wise masking

  /** The payload bytes s, masked from position n of the payload on: byte i is
      combined with byte (n + i) mod 4 of the key (section 5.3 of RFC 6455). */
  function Masked(s: seq<byte>, key: MaskingKey, n: nat): (r: seq<byte>)
    ensures |r| == |s|
  {
    seq(|s|, i requires 0 <= i < |s| => MaskByte(s[i], key, n + i))
  }

  function MaskByte(b: byte, key: MaskingKey, n: nat): byte {
    XorIsByte(b, key[n % 4]);
    Xor(b, key[n % 4])
  }

  lemma XorIsByte(a: byte, b: byte)
    ensures Xor(a, b) < 0x100
  {
    XorByte(0, 0, a, b);
  }

  /** A string is the masked one exactly when each byte is, with its own byte of the key. */
  lemma MaskedExactly(s: seq<byte>, key: MaskingKey, n: nat, r: seq<byte>)
    ensures r == Masked(s, key, n) <==>
            |r| == |s| && forall i :: 0 <= i < |s| ==> r[i] == Xor(s[i], key[(n + i) % 4])
  {
    var m := Masked(s, key, n);
    assert forall i :: 0 <= i < |s| ==> m[i] == Xor(s[i], key[(n + i) % 4]);
  }

  /** Masking is undone by masking again with the same key. */
  lemma {:induction false} MaskedTwice(s: seq<byte>, key: MaskingKey, n: nat)
    ensures Masked(Masked(s, key, n), key, n) == s
  {
    forall i | 0 <= i < |s| ensures Masked(Masked(s, key, n), key, n)[i] == s[i] {
      XorInvolution(s[i], key[(n + i) % 4]);
    }
  }

  /** Masking piece by piece, each piece from where the last one stopped, masks
      the whole. */
  lemma {:induction false} MaskedConcat(a: seq<byte>, b: seq<byte>, key: MaskingKey, n: nat)
    ensures Masked(a + b, key, n) == Masked(a, key, n) + Masked(b, key, n + |a|)
  {
    var l, r := Masked(a + b, key, n), Masked(a, key, n) + Masked(b, key, n + |a|);
    forall i | 0 <= i < |l| ensures l[i] == r[i] {
      if i >= |a| { assert n + |a| + (i - |a|) == n + i; }
    }
  }

  /** The zero key leaves the payload as it is. */
  lemma {:induction false} MaskedNoKey(s: seq<byte>, n: nat)
    ensures Masked(s, NO_KEY, n) == s
  {
    forall i | 0 <= i < |s| ensures Masked(s, NO_KEY, n)[i] == s[i] {
      XorZero(s[i]);
    }
  }
}
