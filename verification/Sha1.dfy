// sha1/sha1.hpp against sections 4.1.1, 5.1.1 and 6.1.2 of FIPS 180-4.
module Sha1 {
  import opened Bytes
  import opened Blocks
  import opened WordOps

  // ---------------------------------------------------- words and operators

  function AndW(x: uint32, y: uint32): uint32 { Width(); Within(x, y, 32); And(x, y) }

  function OrW(x: uint32, y: uint32): uint32 { Width(); Within(x, y, 32); Or(x, y) }

  function XorW(x: uint32, y: uint32): uint32 { Width(); Within(x, y, 32); Xor(x, y) }

  // rol, for the three counts in use: two shifts and their disjunction.

  function Rol1(x: uint32): uint32 { OrW(x * 2 % TWO_32, x / 0x8000_0000) }

  function Rol5(x: uint32): uint32 { OrW(x * 0x20 % TWO_32, x / 0x800_0000) }

  function Rol30(x: uint32): uint32 { OrW(x * 0x4000_0000 % TWO_32, x / 4) }

  // ------------------------------------------------------- the standard

  /** Ch, Parity, Maj, Parity. */
  function F(t: nat, x: uint32, y: uint32, z: uint32): uint32 {
    if t < 20 then XorW(AndW(x, y), AndW(Not(x), z))
    else if t < 40 then XorW(XorW(x, y), z)
    else if t < 60 then XorW(XorW(AndW(x, y), AndW(x, z)), AndW(y, z))
    else XorW(XorW(x, y), z)
  }

  function K(t: nat): uint32 {
    if t < 20 then 0x5a827999 else if t < 40 then 0x6ed9eba1 else if t < 60 then 0x8f1bbcdc else 0xca62c1d6
  }

  /** The message schedule of a block of sixteen words. */
  function W(block: seq<uint32>, t: nat): uint32
    requires |block| == 16
  {
    if t < 16 then block[t]
    else Rol1(XorW(XorW(XorW(W(block, t - 3), W(block, t - 8)), W(block, t - 14)), W(block, t - 16)))
  }

  datatype Vars = Vars(a: uint32, b: uint32, c: uint32, d: uint32, e: uint32)

  const H0: Vars := Vars(0x67452301, 0xefcdab89, 0x98badcfe, 0x10325476, 0xc3d2e1f0)

  function Round(v: Vars, f: uint32, k: uint32, w: uint32): Vars {
    Vars((Rol5(v.a) as int + f + v.e + k + w) % TWO_32, v.a, Rol30(v.b), v.c, v.d)
  }

  /** The working variables after the first t rounds. */
  function Rounds(h: Vars, block: seq<uint32>, t: nat): Vars
    requires |block| == 16
  {
    if t == 0 then h
    else
      var v := Rounds(h, block, t - 1);
      Round(v, F(t - 1, v.b, v.c, v.d), K(t - 1), W(block, t - 1))
  }

  function Sum(v: Vars, w: Vars): Vars {
    Vars((v.a + w.a) % TWO_32, (v.b + w.b) % TWO_32, (v.c + w.c) % TWO_32, (v.d + w.d) % TWO_32, (v.e + w.e) % TWO_32)
  }

  function Compress(h: Vars, block: seq<uint32>): Vars
    requires |block| == 16
  {
    Sum(h, Rounds(h, block, 80))
  }

  /** The sixteen words of 64 bytes, each most significant byte first. */
  function Words(s: seq<byte>): (ws: seq<uint32>)
    requires |s| == 64
    ensures |ws| == 16
  {
    seq(16, i requires 0 <= i < 16 => Word(s[4 * i], s[4 * i + 1], s[4 * i + 2], s[4 * i + 3]))
  }

  /** One block; only blocks of 64 bytes are ever compressed. */
  function Block(h: Vars, s: seq<byte>): Vars { if |s| == 64 then Compress(h, Words(s)) else h }

  /** The message, a one bit, zeros up to 56 bytes modulo 64, and a length of 64 bits. */
  function Padded(m: seq<byte>, bits: nat): seq<byte> {
    m + [0x80] + Zeros((55 - |m|) % 64) + ToBigEndian(bits, 8)
  }

  function Digest(h: Vars): seq<byte> {
    ToBigEndian(h.a, 4) + ToBigEndian(h.b, 4) + ToBigEndian(h.c, 4) + ToBigEndian(h.d, 4) + ToBigEndian(h.e, 4)
  }

  function Sha1(m: seq<byte>): seq<byte> { Digest(Fold(Block, H0, Padded(m, 8 * |m|))) }

  // --------------------------------------------------------- innerHash

  function Value(h: seq<uint32>): Vars
    requires |h| == 5
  {
    Vars(h[0], h[1], h[2], h[3], h[4])
  }

  lemma ChoiceIsF(t: nat, x: uint32, y: uint32, z: uint32)
    requires t < 20
    ensures OrW(AndW(x, y), AndW(Not(x), z)) == F(t, x, y, z)
  {
    hide And, Or, Xor;
    Width();
    ChoiceEither(x, y, z, 32);
  }

  lemma MajorityIsF(t: nat, x: uint32, y: uint32, z: uint32)
    requires 40 <= t < 60
    ensures OrW(OrW(AndW(x, y), AndW(x, z)), AndW(y, z)) == F(t, x, y, z)
  {
    hide And, Or, Xor;
    MajorityEither(x, y, z);
  }

  /** The words of the schedule that stand in the array when a round begins. */
  ghost predicate Scheduled(w: seq<uint32>, block: seq<uint32>, n: nat) {
    |block| == 16 && |w| == 80 && n <= 80 && forall i :: 0 <= i < n ==> w[i] == W(block, i)
  }

  lemma FirstWords(w: seq<uint32>)
    requires |w| == 80
    ensures Scheduled(w, w[..16], 16)
  {
  }

  lemma NextWord(w: seq<uint32>, block: seq<uint32>, n: nat)
    requires 16 <= n < 80 && Scheduled(w, block, n)
    ensures Scheduled(w[n := Rol1(XorW(XorW(XorW(w[n - 3], w[n - 8]), w[n - 14]), w[n - 16]))], block, n + 1)
  {
    hide Rol1, XorW;
  }

  /** The line before the macro in the later loops. */
  method Schedule(w: array<uint32>, ghost block: seq<uint32>, round: nat)
    requires 16 <= round < 80 && Scheduled(w[..], block, round)
    modifies w
    ensures Scheduled(w[..], block, round + 1)
  {
    hide Rol1, XorW, Scheduled;
    ScheduledLength(w[..], block, round);
    NextWord(w[..], block, round);
    ghost var was := w[..];
    w[round] := Rol1(XorW(XorW(XorW(w[round - 3], w[round - 8]), w[round - 14]), w[round - 16]));
    assert w[..] == was[round := w[round]];
  }

  lemma ScheduledLength(w: seq<uint32>, block: seq<uint32>, n: nat)
    requires Scheduled(w, block, n)
    ensures |block| == 16 && |w| == 80 && n <= 80 && (n > 0 ==> w[n - 1] == W(block, n - 1))
  {
  }

  lemma NextRound(h: Vars, block: seq<uint32>, t: nat)
    requires |block| == 16
    ensures Rounds(h, block, 0) == h
    ensures var v := Rounds(h, block, t);
      Rounds(h, block, t + 1) == Round(v, F(t, v.b, v.c, v.d), K(t), W(block, t))
  {
    hide Round, F, K, W;
  }

  /** sha1macro */
  method Sha1Macro(v: Vars, f: uint32, val: uint32, w: uint32) returns (r: Vars)
    ensures r == Round(v, f, val, w)
  {
    hide Rol5, Rol30;
    var a, b, c, d, e := v.a, v.b, v.c, v.d, v.e;
    var t := (Rol5(a) as int + f + e + val + w) % TWO_32;
    e := d;
    d := c;
    c := Rol30(b);
    b := a;
    a := t;
    r := Vars(a, b, c, d, e);
  }

  /** innerHash: one compression, the schedule built in place. */
  method InnerHash(result: array<uint32>, w: array<uint32>)
    requires result.Length == 5 && w.Length == 80 && result != w
    modifies result, w
    ensures Value(result[..]) == Compress(old(Value(result[..])), old(w[..16]))
  {
    hide Round, F, W, Rounds, OrW, AndW, XorW, Scheduled, Not, Sum;
    ghost var block := w[..16];
    var h := Value(result[..]);
    var v, round := h, 0;
    NextRound(h, block, 0);
    FirstWords(w[..]);
    assert w[..][..16] == block;
    while round < 16
      invariant 0 <= round <= 16 && v == Rounds(h, block, round)
      invariant Scheduled(w[..], block, 16)
      modifies {}
    {
      ChoiceIsF(round, v.b, v.c, v.d);
      NextRound(h, block, round);
      WordStands(w[..], block, round);
      v := Sha1Macro(v, OrW(AndW(v.b, v.c), AndW(Not(v.b), v.d)), 0x5a827999, w[round]);
      round := round + 1;
    }
    assert round == 16;
    while round < 20
      invariant 16 <= round <= 20 && v == Rounds(h, block, round) && Scheduled(w[..], block, round)
      modifies w
    {
      Schedule(w, block, round);
      ChoiceIsF(round, v.b, v.c, v.d);
      NextRound(h, block, round);
      ScheduledLength(w[..], block, round + 1);
      v := Sha1Macro(v, OrW(AndW(v.b, v.c), AndW(Not(v.b), v.d)), 0x5a827999, w[round]);
      round := round + 1;
    }
    v := LaterRounds(w, h, block, v);
    var s := Sum(h, v);
    result[0], result[1], result[2], result[3], result[4] := s.a, s.b, s.c, s.d, s.e;
  }

  /** Its loops from round 20. */
  method LaterRounds(w: array<uint32>, ghost h: Vars, ghost block: seq<uint32>, v20: Vars) returns (v: Vars)
    requires Scheduled(w[..], block, 20) && v20 == Rounds(h, block, 20)
    modifies w
    ensures v == Rounds(h, block, 80)
  {
    hide Round, F, W, Rounds, OrW, AndW, XorW, Scheduled;
    v := v20;
    var round := 20;
    ScheduledLength(w[..], block, 20);
    while round < 40
      invariant 20 <= round <= 40 && v == Rounds(h, block, round) && Scheduled(w[..], block, round)
      modifies w
    {
      Schedule(w, block, round);
      ParityIsF(round, v.b, v.c, v.d);
      NextRound(h, block, round);
      ScheduledLength(w[..], block, round + 1);
      v := Sha1Macro(v, XorW(XorW(v.b, v.c), v.d), 0x6ed9eba1, w[round]);
      round := round + 1;
    }
    while round < 60
      invariant 40 <= round <= 60 && v == Rounds(h, block, round) && Scheduled(w[..], block, round)
      modifies w
    {
      Schedule(w, block, round);
      MajorityIsF(round, v.b, v.c, v.d);
      NextRound(h, block, round);
      ScheduledLength(w[..], block, round + 1);
      v := Sha1Macro(v, OrW(OrW(AndW(v.b, v.c), AndW(v.b, v.d)), AndW(v.c, v.d)), 0x8f1bbcdc, w[round]);
      round := round + 1;
    }
    while round < 80
      invariant 60 <= round <= 80 && v == Rounds(h, block, round) && Scheduled(w[..], block, round)
      modifies w
    {
      Schedule(w, block, round);
      ParityIsF(round, v.b, v.c, v.d);
      NextRound(h, block, round);
      ScheduledLength(w[..], block, round + 1);
      v := Sha1Macro(v, XorW(XorW(v.b, v.c), v.d), 0xca62c1d6, w[round]);
      round := round + 1;
    }
  }

  lemma ParityIsF(t: nat, x: uint32, y: uint32, z: uint32)
    requires 20 <= t < 40 || 60 <= t < 80
    ensures XorW(XorW(x, y), z) == F(t, x, y, z)
  {
    hide XorW, AndW;
  }

  lemma WordStands(w: seq<uint32>, block: seq<uint32>, i: nat)
    requires i < 16 <= |w| && block == w[..16]
    ensures w[i] == W(block, i)
  {
  }

  // --------------------------------------------------------------- calc

  /** The words of the schedule from a block, by shifts and disjunctions. */
  lemma WordByShifts(a: byte, b: byte, c: byte, d: byte)
    ensures OrW(OrW(OrW(d, c as int * 0x100), b as int * 0x1_0000), a as int * 0x100_0000) == Word(a, b, c, d)
  {
    hide Or;
    Width();
    ShiftedBytes(c);
    ShiftedBytes(b);
    ShiftedBytes(a);
    OrAdds(d, c, 8);
    OrAdds(d + c as int * 0x100, b, 16);
    OrAdds(d + c as int * 0x100 + b as int * 0x1_0000, a, 24);
  }

  /** The loop over all complete blocks, for one of them. */
  method LoadBlock(src: seq<byte>, from: nat, w: array<uint32>)
    requires from + 64 <= |src| && w.Length == 80
    modifies w
    ensures w[..16] == Words(src[from..from + 64])
  {
    hide OrW;
    var currentBlock, roundPos := from, 0;
    while currentBlock < from + 64
      invariant currentBlock == from + 4 * roundPos && roundPos <= 16
      invariant forall i :: 0 <= i < roundPos ==> w[i] == Words(src[from..from + 64])[i]
      modifies w
    {
      var s := src[currentBlock..currentBlock + 4];
      WordByShifts(s[0], s[1], s[2], s[3]);
      w[roundPos] := OrW(OrW(OrW(s[3], s[2] as int * 0x100), s[1] as int * 0x1_0000), s[0] as int * 0x100_0000);
      roundPos := roundPos + 1;
      currentBlock := currentBlock + 4;
    }
  }

  /** clearWBuffert */
  method Clear(w: array<uint32>)
    requires w.Length == 80
    modifies w
    ensures w[..16] == Words(Zeros(64))
  {
    var pos := 16;
    while pos > 0
      invariant 0 <= pos <= 16 && forall i :: pos <= i < 16 ==> w[i] == 0
      modifies w
    {
      pos := pos - 1;
      w[pos] := 0;
    }
  }

  function ByteShift(k: nat): nat
    requires k < 4
  {
    if k == 0 then 0x100_0000 else if k == 1 then 0x1_0000 else if k == 2 then 0x100 else 1
  }

  /** Or-ing byte i into its word, when nothing stands from there on. */
  lemma ByteSet(s: seq<byte>, i: nat, b: byte)
    requires |s| == 64 && i < 64 && forall j :: i <= j < 64 ==> s[j] == 0
    ensures b as int * ByteShift(i % 4) < TWO_32
    ensures Words(s[i := b]) == Words(s)[i / 4 := OrW(Words(s)[i / 4], b as int * ByteShift(i % 4))]
  {
    hide OrW;
    var q, k := i / 4, i % 4;
    WordSet(s[4 * q], s[4 * q + 1], s[4 * q + 2], s[4 * q + 3], k, b);
    var t := s[i := b];
    assert forall n :: 0 <= n < 16 && n != q ==> Words(t)[n] == Words(s)[n];
  }

  lemma WordSet(a: byte, b: byte, c: byte, d: byte, k: nat, x: byte)
    requires k < 4 && (k <= 0 ==> a == 0) && (k <= 1 ==> b == 0) && (k <= 2 ==> c == 0) && d == 0
    ensures x as int * ByteShift(k) < TWO_32
    ensures OrW(Word(a, b, c, d), x as int * ByteShift(k)) ==
            Word(if k == 0 then x else a, if k == 1 then x else b, if k == 2 then x else c, if k == 3 then x else d)
  {
    hide Or, Shifted, Pow2;
    Width();
    match k
    case 0 => OrZero(x as int * 0x100_0000);
    case 1 => ShiftedBytes(a); OrAdds(x as int * 0x1_0000, a, 24);
    case 2 => ShiftedBytes(a as int * 0x100 + b); OrAdds(x as int * 0x100, a as int * 0x100 + b, 16);
    case 3 => ShiftedBytes((a as int * 0x100 + b) * 0x100 + c); OrAdds(x, (a as int * 0x100 + b) * 0x100 + c, 8);
  }

  /** Two blocks one after the other. */
  lemma TwoBlocks(h: Vars, a: seq<byte>, b: seq<byte>)
    requires |a| == 64 && |b| == 64
    ensures Fold(Block, h, a + b) == Compress(Compress(h, Words(a)), Words(b))
  {
    hide Compress, Words, Fold;
    FoldConcat(Block, h, a, b);
    OneBlock(Block, h, a);
    OneBlock(Block, Compress(h, Words(a)), b);
  }

  lemma {:induction false} BigEndianZero(k: nat)
    ensures ToBigEndian(0, k) == Zeros(k)
  {
    if k > 0 {
      BigEndianZero(k - 1);
    }
  }

  /** A length below 2^32 leaves the high word zero. */
  lemma LengthBytes(bits: uint32)
    ensures ToBigEndian(bits, 8) == Zeros(4) + ToBigEndian(bits, 4)
  {
    var x1: nat := bits / 0x100;
    var x2: nat := x1 / 0x100;
    var x3: nat := x2 / 0x100;
    assert x3 / 0x100 == 0;
    hide ToBigEndian;
    BigEndianZero(4);
    ToBigEndianStep(bits, 8);
    ToBigEndianStep(x1, 7);
    ToBigEndianStep(x2, 6);
    ToBigEndianStep(x3, 5);
    ToBigEndianStep(bits, 4);
    ToBigEndianStep(x1, 3);
    ToBigEndianStep(x2, 2);
    ToBigEndianStep(x3, 1);
  }

  lemma LengthSet(x: seq<byte>, bits: uint32)
    requires |x| == 56
    ensures Words(x + Zeros(8))[15 := bits] == Words(x + ToBigEndian(bits, 8))
  {
    hide ToBigEndian;
    LengthBytes(bits);
    WordBytes(bits);
    var s, t := x + Zeros(8), x + ToBigEndian(bits, 8);
    assert forall j :: 0 <= j < 60 ==> s[j] == t[j];
    assert t[60..] == ToBigEndian(bits, 4);
    assert t[60] == t[60..][0] && t[61] == t[60..][1] && t[62] == t[60..][2] && t[63] == t[60..][3];
  }

  /** What is left for the last blocks. */
  function Last(r: seq<byte>, bits: uint32): (s: seq<byte>)
    requires |r| < 64
    ensures |s| == if |r| < 56 then 64 else 128
  {
    r + [0x80] + Zeros(if |r| < 56 then 55 - |r| else 119 - |r|) + ToBigEndian(bits, 8)
  }

  lemma PaddedIsLast(m: seq<byte>, whole: nat, bits: uint32)
    requires whole <= |m| && whole % 64 == 0 && |m| - whole < 64
    ensures Padded(m, bits) == m[..whole] + Last(m[whole..], bits)
  {
    hide ToBigEndian;
    var n := |m| - whole;
    assert (55 - |m|) % 64 == (if n < 56 then 55 - n else 119 - n) by {
      Remainder(55 - |m|, if n < 56 then 55 - n else 119 - n, -(whole / 64) - (if n < 56 then 0 else 1));
    }
    assert m == m[..whole] + m[whole..];
  }

  lemma Remainder(a: int, b: nat, k: int)
    requires a == b + k * 64 && b < 64
    ensures a % 64 == b
  {
  }

  lemma BlockFolded(src: seq<byte>, current: nat)
    requires current + 64 <= |src| && current % 64 == 0
    ensures Fold(Block, H0, src[..current + 64]) ==
              Compress(Fold(Block, H0, src[..current]), Words(src[current..current + 64]))
  {
    hide Compress, Words, Fold;
    FoldConcat(Block, H0, src[..current], src[current..current + 64]);
    OneBlock(Block, Fold(Block, H0, src[..current]), src[current..current + 64]);
    assert src[..current + 64] == src[..current] + src[current..current + 64];
  }

  /** The tail of calc: the rest of the message, the marker and the length. */
  method LastBlocks(src: seq<byte>, currentBlock: nat, result: array<uint32>, w: array<uint32>)
    requires currentBlock <= |src| && |src| - currentBlock < 64 && result.Length == 5 && w.Length == 80 && result != w
    modifies result, w
    ensures Value(result[..]) == Fold(Block, old(Value(result[..])), Last(src[currentBlock..], 8 * |src| % TWO_32))
  {
    hide Compress, Words, Fold, OrW, ToBigEndian, Last, ByteShift;
    ghost var r := src[currentBlock..];
    ghost var h := Value(result[..]);
    var endCurrentBlock := |src| - currentBlock;
    var bits: uint32 := 8 * |src| % TWO_32;
    Clear(w);
    var n := 0;
    assert r[..0] + Zeros(64) == Zeros(64);
    while n < endCurrentBlock
      invariant 0 <= n <= endCurrentBlock && w[..16] == Words(r[..n] + Zeros(64 - n))
      modifies w
    {
      SetByte(w, n, r[..n], src[currentBlock + n]);
      assert r[..n] + [src[currentBlock + n]] == r[..n + 1];
      n := n + 1;
    }
    assert r[..n] == r;
    SetByte(w, n, r, 0x80);
    LastSplit(r, bits);
    if endCurrentBlock >= 56 {
      InnerHash(result, w);
      Clear(w);
      assert Zeros(64) == Zeros(56) + Zeros(8);
      LengthSet(Zeros(56), bits);
      TwoBlocks(h, r + [0x80] + Zeros(63 - n), Zeros(56) + ToBigEndian(bits, 8));
    } else {
      assert r + [0x80] + Zeros(63 - n) == r + [0x80] + Zeros(55 - n) + Zeros(8);
      LengthSet(r + [0x80] + Zeros(55 - n), bits);
      OneBlock(Block, h, Last(r, bits));
    }
    ghost var was := w[..16];
    w[15] := bits;
    assert w[..16] == was[15 := bits];
    InnerHash(result, w);
  }

  /** A byte or-ed into its word. */
  method SetByte(w: array<uint32>, n: nat, ghost before: seq<byte>, b: byte)
    requires w.Length == 80 && |before| == n < 64 && w[..16] == Words(before + Zeros(64 - n))
    modifies w
    ensures w[..16] == Words(before + [b] + Zeros(63 - n))
  {
    hide Words, OrW, ByteShift;
    ghost var s, was := before + Zeros(64 - n), w[..16];
    ByteSet(s, n, b);
    w[n / 4] := OrW(w[n / 4], b as int * ByteShift(n % 4));
    assert s[n := b] == before + [b] + Zeros(63 - n);
    assert w[..16] == was[n / 4 := w[n / 4]];
  }

  /** calc pads as the standard does exactly below 2^29 bytes. */
  lemma PaddedAsStandard(m: seq<byte>)
    requires 8 * |m| < TWO_64
    ensures Padded(m, 8 * |m| % TWO_32) == Padded(m, 8 * |m|) <==> |m| < 0x2000_0000
  {
    hide ToBigEndian, BigEndian, Pow256;
    if Padded(m, 8 * |m| % TWO_32) == Padded(m, 8 * |m|) {
      var n := |Padded(m, 0)| - 8;
      assert Padded(m, 8 * |m|)[n..] == ToBigEndian(8 * |m|, 8);
      assert Padded(m, 8 * |m| % TWO_32)[n..] == ToBigEndian(8 * |m| % TWO_32, 8);
      Pow256Values();
      BigEndianInverts(8 * |m| % TWO_32, 8);
      BigEndianInverts(8 * |m|, 8);
    }
  }

  /** calc. Of the length only 32 bits are kept, which is FIPS 180-4 below 2^29 bytes. */
  method Calc(src: seq<byte>, hash: array<byte>)
    requires hash.Length >= 20
    modifies hash
    ensures hash[..20] == Digest(Fold(Block, H0, Padded(src, 8 * |src| % TWO_32)))
    ensures |src| < 0x2000_0000 ==> hash[..20] == Sha1(src)
    ensures hash[20..] == old(hash[20..])
  {
    hide Compress, Words, Fold, Padded, Last, ToBigEndian, Digest;
    var result, w := new uint32[5], new uint32[80];
    result[0], result[1], result[2], result[3], result[4] := H0.a, H0.b, H0.c, H0.d, H0.e;
    var currentBlock := 0;
    NoBlock(Block, H0);
    assert src[..0] == [];
    if |src| >= 64 {
      var endOfFullBlocks := |src| - 64;
      while currentBlock <= endOfFullBlocks
        invariant 0 <= currentBlock <= |src| && currentBlock % 64 == 0
        invariant Value(result[..]) == Fold(Block, H0, src[..currentBlock])
        modifies result, w
      {
        LoadBlock(src, currentBlock, w);
        BlockFolded(src, currentBlock);
        InnerHash(result, w);
        currentBlock := currentBlock + 64;
      }
    }
    LastBlocks(src, currentBlock, result, w);
    PaddedIsLast(src, currentBlock, 8 * |src| % TWO_32);
    FoldConcat(Block, H0, src[..currentBlock], Last(src[currentBlock..], 8 * |src| % TWO_32));
    StoreHash(result, hash);
  }

  /** The last loop of calc. */
  method StoreHash(result: array<uint32>, hash: array<byte>)
    requires result.Length == 5 && hash.Length >= 20
    modifies hash
    ensures hash[..20] == Digest(Value(result[..]))
    ensures hash[20..] == old(hash[20..])
  {
    hide Digest, ByteAt;
    var hashByte := 20;
    while hashByte > 0
      invariant 0 <= hashByte <= 20
      invariant forall j :: hashByte <= j < 20 ==> hash[j] == ByteAt(result[j / 4], 3 - j % 4)
      invariant hash[20..] == old(hash[20..])
      modifies hash
    {
      hashByte := hashByte - 1;
      hash[hashByte] := ByteAt(result[hashByte / 4], 3 - hashByte % 4);
    }
    DigestIs(result[..], hash[..20]);
  }

  lemma DigestIs(result: seq<uint32>, hash: seq<byte>)
    requires |result| == 5 && |hash| == 20
    requires forall j :: 0 <= j < 20 ==> hash[j] == ByteAt(result[j / 4], 3 - j % 4)
    ensures hash == Digest(Value(result))
  {
    hide ToBigEndian, ByteAt;
    forall i | 0 <= i < 5 ensures hash[4 * i..4 * i + 4] == ToBigEndian(result[i], 4) {
      FourBytes(result, hash, i);
    }
    assert hash == hash[0..4] + hash[4..8] + hash[8..12] + hash[12..16] + hash[16..20];
    assert hash[4 * 0..4 * 0 + 4] == hash[0..4] && hash[4 * 1..4 * 1 + 4] == hash[4..8];
    assert hash[4 * 2..4 * 2 + 4] == hash[8..12] && hash[4 * 3..4 * 3 + 4] == hash[12..16];
    assert hash[4 * 4..4 * 4 + 4] == hash[16..20];
  }

  lemma FourBytes(result: seq<uint32>, hash: seq<byte>, i: nat)
    requires |result| == 5 && |hash| == 20 && i < 5
    requires forall j :: 0 <= j < 20 ==> hash[j] == ByteAt(result[j / 4], 3 - j % 4)
    ensures hash[4 * i..4 * i + 4] == ToBigEndian(result[i], 4)
  {
    hide ToBigEndian, ByteAt;
    WordBytes(result[i]);
    assert (4 * i) / 4 == i && (4 * i) % 4 == 0;
    assert (4 * i + 1) / 4 == i && (4 * i + 1) % 4 == 1;
    assert (4 * i + 2) / 4 == i && (4 * i + 2) % 4 == 2;
    assert (4 * i + 3) / 4 == i && (4 * i + 3) % 4 == 3;
  }

  lemma LastSplit(r: seq<byte>, bits: uint32)
    requires |r| < 64
    ensures |r| >= 56 ==> Last(r, bits) == (r + [0x80] + Zeros(63 - |r|)) + (Zeros(56) + ToBigEndian(bits, 8))
    ensures |r| < 56 ==> Last(r, bits) == r + [0x80] + Zeros(55 - |r|) + ToBigEndian(bits, 8)
  {
    hide ToBigEndian;
    if |r| >= 56 {
      assert Zeros(119 - |r|) == Zeros(63 - |r|) + Zeros(56);
    }
  }

  // --------------------------------------------------------------- by numbers

  /** The initial words count up and down in their bytes, lowest first. */
  lemma InitialWords()
    ensures [ByteAt(H0.a, 0), ByteAt(H0.a, 1), ByteAt(H0.a, 2), ByteAt(H0.a, 3)] == [0x01, 0x23, 0x45, 0x67]
    ensures [ByteAt(H0.b, 0), ByteAt(H0.b, 1), ByteAt(H0.b, 2), ByteAt(H0.b, 3)] == [0x89, 0xAB, 0xCD, 0xEF]
    ensures [ByteAt(H0.c, 0), ByteAt(H0.c, 1), ByteAt(H0.c, 2), ByteAt(H0.c, 3)] == [0xFE, 0xDC, 0xBA, 0x98]
    ensures [ByteAt(H0.d, 0), ByteAt(H0.d, 1), ByteAt(H0.d, 2), ByteAt(H0.d, 3)] == [0x76, 0x54, 0x32, 0x10]
    ensures [ByteAt(H0.e, 0), ByteAt(H0.e, 1), ByteAt(H0.e, 2), ByteAt(H0.e, 3)] == [0xF0, 0xE1, 0xD2, 0xC3]
  {
  }

  /** The constants are the square roots of 2, 3, 5 and 10, times 2^30, rounded down. */
  lemma ConstantsAreRoots(t: nat)
    requires t < 80
    ensures var n := if t < 20 then 2 else if t < 40 then 3 else if t < 60 then 5 else 10;
      K(t) as int * K(t) <= n * 0x1000_0000_0000_0000 < (K(t) as int + 1) * (K(t) + 1)
  {
  }

  /** The three rotations as numbers. */
  lemma RotationsByNumber(x: uint32)
    ensures Rol1(x) == x * 2 % TWO_32 + x / 0x8000_0000
    ensures Rol5(x) == x * 0x20 % TWO_32 + x / 0x800_0000
    ensures Rol30(x) == x * 0x4000_0000 % TWO_32 + x / 4
  {
    hide OrW;
    var z1: nat := x % 0x8000_0000;
    var z5: nat := x % 0x800_0000;
    var z30: nat := x % 4;
    Widths();
    ShiftedBits(z1);
    ShiftedBits(z5);
    ShiftedBits(z30);
    OrOfParts(z1, x / 0x8000_0000, 1);
    OrOfParts(z5, x / 0x800_0000, 5);
    OrOfParts(z30, x / 4, 30);
    LeftParts(x);
  }

  lemma LeftParts(x: uint32)
    ensures x * 2 % TWO_32 == 2 * (x % 0x8000_0000)
    ensures x * 0x20 % TWO_32 == 0x20 * (x % 0x800_0000)
    ensures x * 0x4000_0000 % TWO_32 == 0x4000_0000 * (x % 4)
  {
  }

  lemma OrOfParts(z: nat, low: uint32, k: nat)
    requires low < Pow2(k) && Shifted(z, k) < TWO_32
    ensures OrW(Shifted(z, k), low) == Shifted(z, k) + low
  {
    OrAdds(low, z, k);
  }

  /** The functions of the rounds, bit by bit: a choice, a parity, a majority, a parity. */
  lemma FunctionsByBits(t: nat, x: uint32, y: uint32, z: uint32, i: nat)
    requires t < 80 && i < 32
    ensures var (a, b, c, f) := (BitAt(x, i), BitAt(y, i), BitAt(z, i), BitAt(F(t, x, y, z), i));
      if t < 20 then f == if a == 1 then b else c
      else if 40 <= t < 60 then f == if a + b + c >= 2 then 1 else 0
      else f == (a + b + c) % 2
  {
    hide And, Xor, BitAt, Pow2;
    Width();
    BitIsBit(x, i);
    BitIsBit(y, i);
    BitIsBit(z, i);
    ComplementAt(x, 32, i);
    BitwiseAt(x, y, i);
    BitwiseAt(Not(x), z, i);
    BitwiseAt(And(x, y), And(Not(x), z), i);
    BitwiseAt(Xor(x, y), z, i);
    BitwiseAt(x, z, i);
    BitwiseAt(y, z, i);
    BitwiseAt(And(x, y), And(x, z), i);
    BitwiseAt(Xor(And(x, y), And(x, z)), And(y, z), i);
  }

  /** The padding, by its bytes. */
  lemma PaddedByNumber(m: seq<byte>, bits: uint64, i: nat)
    requires i < |Padded(m, bits)|
    ensures var p := Padded(m, bits);
      && |p| % 64 == 0 && |m| + 9 <= |p| < |m| + 73
      && p[i] == if i < |m| then m[i] else if i == |m| then 0x80 else if i < |p| - 8 then 0
                 else ByteAt(bits, |p| - 1 - i)
  {
    hide ToBigEndian;
    var k := (55 - |m|) % 64;
    assert |Padded(m, bits)| == |m| + 9 + k;
    SixtyFour(|m| + 9 + k, 1 - (55 - |m|) / 64);
    if i >= |Padded(m, bits)| - 8 {
      HighByteAt(bits, 8, i - (|Padded(m, bits)| - 8));
    }
  }

  lemma SixtyFour(a: nat, k: int)
    requires a == k * 64
    ensures a % 64 == 0
  {
  }

  lemma {:induction false} HighByteAt(n: nat, k: nat, i: nat)
    requires i < k
    ensures ToBigEndian(n, k)[i] == ByteAt(n, k - 1 - i)
    decreases k
  {
    if i < k - 1 {
      HighByteAt(n / 0x100, k - 1, i);
    }
  }

  /** A block's words, most significant byte first; the schedule; and one round. */
  lemma BlockByNumber(s: seq<byte>, i: nat)
    requires |s| == 64 && i < 16
    ensures Words(s)[i] ==
            s[4 * i] as int * 0x100_0000 + s[4 * i + 1] as int * 0x1_0000 + s[4 * i + 2] as int * 0x100 + s[4 * i + 3]
  {
  }

  lemma ScheduleByNumber(block: seq<uint32>, t: nat)
    requires |block| == 16 && t < 80
    ensures if t < 16 then W(block, t) == block[t]
            else
              var x: uint32 := XorW(XorW(XorW(W(block, t - 3), W(block, t - 8)), W(block, t - 14)), W(block, t - 16));
              W(block, t) == x * 2 % TWO_32 + x / 0x8000_0000
  {
    hide XorW, Rol1;
    if t >= 16 {
      RotationsByNumber(XorW(XorW(XorW(W(block, t - 3), W(block, t - 8)), W(block, t - 14)), W(block, t - 16)));
    }
  }

  lemma RoundByNumber(h: Vars, block: seq<uint32>, t: nat)
    requires |block| == 16 && t < 80
    ensures Rounds(h, block, 0) == h
    ensures var (v, n) := (Rounds(h, block, t), Rounds(h, block, t + 1));
      && n.a == (v.a * 0x20 % TWO_32 + v.a / 0x800_0000 + F(t, v.b, v.c, v.d) + v.e + K(t) + W(block, t)) % TWO_32
      && n.b == v.a && n.c == v.b * 0x4000_0000 % TWO_32 + v.b / 4 && n.d == v.c && n.e == v.d
  {
    hide F, K, W, Rol5, Rol30;
    var v := Rounds(h, block, t);
    RotationsByNumber(v.a);
    RotationsByNumber(v.b);
    NextRound(h, block, t);
  }

  /** The digest: the five words, most significant byte first. */
  lemma DigestByNumber(h: Vars, i: nat, j: nat)
    requires i < 5 && j < 4
    ensures |Digest(h)| == 20 && Digest(h)[4 * i + j] == ByteAt([h.a, h.b, h.c, h.d, h.e][i], 3 - j)
  {
    hide ToBigEndian, ByteAt;
    HighByteAt(h.a, 4, j);
    HighByteAt(h.b, 4, j);
    HighByteAt(h.c, 4, j);
    HighByteAt(h.d, 4, j);
    HighByteAt(h.e, 4, j);
  }
}
