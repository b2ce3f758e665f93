// common/md5.hpp: the buffered block hash, over any compression function, against the
// padding and folding of sections 3.1 to 3.5 of RFC 1321.
module Md5 {
  import opened Bytes
  import opened Blocks

  const TWO_29: nat := 0x2000_0000

  datatype Words = Words(a: uint32, b: uint32, c: uint32, d: uint32)

  /** md5_process: the new words from the old and a block of 64 bytes. */
  type Compression = (Words, seq<byte>) -> Words

  const INIT: Words := Words(0x67452301, 0xefcdab89, 0x98badcfe, 0x10325476)

  // ------------------------------------------------------- the definition

  /** The low k bytes of n, least significant first. */
  function LowBytes(n: nat, k: nat): (s: seq<byte>)
    ensures |s| == k
  {
    if k == 0 then [] else [n % 0x100] + LowBytes(n / 0x100, k - 1)
  }

  /** The message, 0x80, zeros up to 56 modulo 64, and the bit length in eight bytes. */
  function Padded(m: seq<byte>): seq<byte> {
    m + [0x80] + Zeros((55 - |m|) % 64) + LowBytes(8 * |m| % TWO_64, 8)
  }

  lemma PaddedToBlocks(m: seq<byte>)
    ensures |Padded(m)| % 64 == 0 && (|m| + 1 + (55 - |m|) % 64) % 64 == 56
  {
    hide LowBytes;
    Multiple(|m| + 1 + (55 - |m|) % 64, 56, -((55 - |m|) / 64));
    Multiple(|Padded(m)|, 0, 1 - (55 - |m|) / 64);
  }

  lemma Multiple(a: nat, b: nat, k: int)
    requires a == b + k * 64
    ensures a % 64 == b % 64
  {
  }

  function Digest(w: Words): seq<byte> {
    LowBytes(w.a, 4) + LowBytes(w.b, 4) + LowBytes(w.c, 4) + LowBytes(w.d, 4)
  }

  function Md5(f: Compression, m: seq<byte>): seq<byte> { Digest(Fold(f, INIT, Padded(m))) }

  // ------------------------------------------------------ the bit counter

  /** The two words hold the bit length modulo 2^64. */
  predicate Counts(count0: uint32, count1: uint32, length: nat) {
    count1 as int * TWO_32 + count0 == 8 * length % TWO_64
  }

  lemma CountsOffset(count0: uint32, count1: uint32, length: nat)
    requires Counts(count0, count1, length)
    ensures count0 / 8 % 64 == length % 64
  {
    var q, t := 8 * length / TWO_64, length - 8 * length / TWO_64 * 0x2000_0000_0000_0000 - count1 as int * 0x2000_0000;
    assert 8 * length == q * TWO_64 + count1 as int * TWO_32 + count0;
    assert count0 as int == 8 * t;
    Multiple(length, t, q * 0x80_0000_0000_0000 + count1 as int * 0x80_0000);
  }

  lemma WordOf(n: nat)
    ensures 8 * n == n / TWO_29 * TWO_32 + 8 * n % TWO_32
  {
  }

  lemma CarryOf(a: uint32, b: uint32)
    ensures a as int + b == (a as int + b) % TWO_32 + if (a as int + b) % TWO_32 < b then TWO_32 else 0
  {
  }

  /** Two numbers that differ by a multiple of 2^64. */
  lemma SameModulo(a: nat, b: nat, k: int)
    requires a == b + k * TWO_64 && a < TWO_64
    ensures a == b % TWO_64
  {
  }

  lemma HighWord(x: nat, low: uint32)
    ensures (x % TWO_32) as int * TWO_32 + low == x * TWO_32 + low - x / TWO_32 * TWO_64
    ensures (x % TWO_32) as int * TWO_32 + low < TWO_64
  {
  }

  /** The counter after n more bytes. */
  function More0(count0: uint32, n: nat): uint32 { (count0 + 8 * n % TWO_32) % TWO_32 }

  function More1(count0: uint32, count1: uint32, n: nat): uint32 {
    var high: uint32 := (count1 + n / TWO_29) % TWO_32;
    if More0(count0, n) < 8 * n % TWO_32 then (high + 1) % TWO_32 else high
  }

  lemma CountsMore(count0: uint32, count1: uint32, length: nat, n: nat)
    requires Counts(count0, count1, length)
    ensures Counts(More0(count0, n), More1(count0, count1, n), length + n)
  {
    var low, high := More0(count0, n), More1(count0, count1, n);
    var nbits: uint32 := 8 * n % TWO_32;
    var x := count1 + n / TWO_29 + if low < nbits then 1 else 0;
    WordOf(n);
    CarryOf(count0, nbits);
    HighWord(x, low);
    assert high == x % TWO_32 by { Twice(count1 + n / TWO_29); }
    assert x * TWO_32 + low == count1 as int * TWO_32 + count0 + 8 * n;
    var q := 8 * length / TWO_64;
    assert 8 * length == q * TWO_64 + count1 as int * TWO_32 + count0;
    SameModulo(high as int * TWO_32 + low, 8 * (length + n), -q - x / TWO_32);
  }

  lemma Twice(y: nat)
    ensures (y % TWO_32 + 1) % TWO_32 == (y + 1) % TWO_32
  {
  }

  // ------------------------------------------------------------ the state

  /** The whole blocks of a message, and the bytes behind them. */
  function Whole(m: seq<byte>): seq<byte> { m[..|m| - |m| % 64] }

  function Tail(m: seq<byte>): seq<byte> { m[|m| - |m| % 64..] }

  /** The words are the fold over the whole blocks, and the buffer begins with the tail. */
  ghost predicate Tracks(f: Compression, w: Words, buf: seq<byte>, m: seq<byte>) {
    |buf| == 64 && w == Fold(f, INIT, Whole(m)) && buf[..|m| % 64] == Tail(m)
  }

  lemma TailIs(f: Compression, w: Words, buf: seq<byte>, m: seq<byte>)
    requires Tracks(f, w, buf, m)
    ensures |buf| == 64 && w == Fold(f, INIT, Whole(m)) && buf[..|m| % 64] == Tail(m)
    ensures |m| % 64 == 0 ==> Tail(m) == []
  {
  }

  /** Bytes that do not fill the block only lengthen the tail. */
  lemma TailGrows(f: Compression, w: Words, was: seq<byte>, buf: seq<byte>, m: seq<byte>, data: seq<byte>)
    requires Tracks(f, w, was, m) && |m| % 64 + |data| < 64 && |buf| == 64
    requires buf[..|m| % 64 + |data|] == was[..|m| % 64] + data
    ensures Tracks(f, w, buf, m + data)
  {
    var n := |m| % 64;
    assert |m + data| % 64 == n + |data| by { Multiple(n + |data|, |m| + |data|, -(|m| / 64)); }
    assert Whole(m + data) == Whole(m);
    assert Tail(m + data) == Tail(m) + data;
  }

  /** A tail that fills the block is compressed, and leaves no tail. */
  lemma BlockDone(f: Compression, w: Words, block: seq<byte>, buf: seq<byte>, m: seq<byte>, data: seq<byte>)
    requires w == Fold(f, INIT, Whole(m)) && |block| == |buf| == 64 && block == Tail(m) + data
    ensures Tracks(f, f(w, block), buf, m + data) && |m + data| % 64 == 0
  {
    assert |m + data| % 64 == 0 by { Multiple(|m| + |data|, 0, |m| / 64 + 1); }
    assert Whole(m + data) == Whole(m) + block;
    assert |Whole(m)| % 64 == 0 by { Multiple(|m| - |m| % 64, 0, |m| / 64); }
    FoldConcat(f, INIT, Whole(m), block);
    assert block[..64] == block && block[64..] == [];
    OneBlock(f, w, block);
    assert buf[..0] == Tail(m + data);
  }

  lemma ModuloOf(n: nat, x: nat)
    requires x % 64 == n % 64
    ensures (55 - x) % 64 == (55 - n) % 64
  {
    Multiple64(55 - x, 55 - n, n / 64 - x / 64);
  }

  lemma Multiple64(a: int, b: int, k: int)
    requires a == b + k * 64
    ensures a % 64 == b % 64
  {
  }

  lemma WholeOf(m: seq<byte>)
    ensures |m| % 64 == 0 ==> Whole(m) == m
  {
  }

  lemma LowWord(w: uint32)
    ensures LowBytes(w, 4) == [ByteAt(w, 0), ByteAt(w, 1), ByteAt(w, 2), ByteAt(w, 3)]
  {
    hide LowBytes, ByteAt;
    var x1: nat := w / 0x100;
    var x2: nat := x1 / 0x100;
    var x3: nat := x2 / 0x100;
    LowStep(w, 0, w, 4);
    LowStep(x1, 0, x1, 3);
    LowStep(x2, 0, x2, 2);
    LowStep(x3, 0, x3, 1);
    NoBytes(x3 / 0x100);
    ShiftByte(w, 0);
    ShiftByte(w, 1);
    ShiftByte(w, 2);
    ShiftByte(x1, 0);
    ShiftByte(x1, 1);
    ShiftByte(x2, 0);
    ShiftByte(x3, 0);
  }

  /** Two words, low bytes first. */
  lemma {:induction false} TwoWords(low: uint32, high: uint32)
    ensures LowBytes(high as int * TWO_32 + low, 8) == LowBytes(low, 4) + LowBytes(high, 4)
  {
    hide LowBytes;
    var h: nat := high;
    var l1: nat := low / 0x100;
    var l2: nat := l1 / 0x100;
    var l3: nat := l2 / 0x100;
    assert l3 / 0x100 == 0;
    LowStep(h * TWO_32 + low, h * 0x100_0000, low, 8);
    LowStep(h * 0x100_0000 + l1, h * 0x1_0000, l1, 7);
    LowStep(h * 0x1_0000 + l2, h * 0x100, l2, 6);
    LowStep(h * 0x100 + l3, h, l3, 5);
    LowStep(low, 0, low, 4);
    LowStep(l1, 0, l1, 3);
    LowStep(l2, 0, l2, 2);
    LowStep(l3, 0, l3, 1);
    NoBytes(0);
  }

  lemma NoBytes(n: nat)
    ensures LowBytes(n, 0) == []
  {
  }

  lemma LowStep(n: nat, x: nat, l: nat, k: nat)
    requires n == x * 0x100 + l && k > 0
    ensures LowBytes(n, k) == [l % 0x100] + LowBytes(x + l / 0x100, k - 1)
  {
    assert n % 0x100 == l % 0x100 && n / 0x100 == x + l / 0x100;
  }

  /** The n-th of the four words. */
  function NthWord(w: Words, n: nat): uint32
    requires n < 4
  {
    if n == 0 then w.a else if n == 1 then w.b else if n == 2 then w.c else w.d
  }

  lemma DigestIs(w: Words, digest: seq<byte>)
    requires |digest| == 16 && forall j :: 0 <= j < 16 ==> digest[j] == ByteAt(NthWord(w, j / 4), j % 4)
    ensures digest == Digest(w)
  {
    hide LowBytes, ByteAt;
    LowWord(w.a);
    LowWord(w.b);
    LowWord(w.c);
    LowWord(w.d);
  }

  lemma CountIs(count0: uint32, count1: uint32, length: nat, data: seq<byte>)
    requires Counts(count0, count1, length)
    requires |data| == 8 && forall j :: 0 <= j < 8 ==> data[j] == ByteAt(if j / 4 == 0 then count0 else count1, j % 4)
    ensures data == LowBytes(8 * length % TWO_64, 8)
  {
    hide LowBytes, ByteAt;
    LowWord(count0);
    LowWord(count1);
    TwoWords(count0, count1);
  }

  lemma PaddedIs(m: seq<byte>, n: nat, data: seq<byte>)
    requires n == (55 - |m|) % 64 + 1 && data == LowBytes(8 * |m| % TWO_64, 8)
    ensures m + Pad()[..n] + data == Padded(m) && |Padded(m)| % 64 == 0
  {
    hide LowBytes;
    PaddedToBlocks(m);
    assert Pad()[..n] == [0x80] + Zeros(n - 1);
  }

  /** pad, of which md5_finish appends at least one byte. */
  function Pad(): (s: seq<byte>)
    ensures |s| == 64
  {
    [0x80] + Zeros(63)
  }

  lemma SliceJoined(before: seq<byte>, data: seq<byte>, from: nat, p: nat, q: nat)
    requires from <= p <= q <= |data|
    ensures before + data[from..q] == before + data[from..p] + data[p..q]
    ensures data[from..|data|] == data[from..] && data[p..|data|] == data[p..]
  {
  }

  class State {
    const process: Compression
    var count0: uint32
    var count1: uint32
    var abcd: Words
    const buf: array<byte>
    ghost var message: seq<byte>

    ghost predicate Valid()
      reads this, buf
    {
      buf.Length == 64 && Counts(count0, count1, |message|) && Tracks(process, abcd, buf[..], message)
    }

    /** md5_init */
    constructor (f: Compression)
      ensures Valid() && message == [] && process == f && fresh(buf)
    {
      process := f;
      count0, count1 := 0, 0;
      abcd := INIT;
      buf := new byte[64];
      message := [];
    }

    /** memcpy into the buffer. */
    method Copy(offset: nat, data: seq<byte>)
      requires buf.Length == 64 && offset + |data| <= 64
      modifies buf
      ensures buf[..offset + |data|] == old(buf[..offset]) + data
    {
      for i: int := 0 to |data|
        invariant buf[..offset + i] == old(buf[..offset]) + data[..i]
        modifies buf
      {
        buf[offset + i] := data[i];
      }
    }

    /** md5_append, for lengths that an address space can hold. */
    method Append(data: seq<byte>)
      requires Valid() && |data| + 64 <= TWO_64
      modifies this`count0, this`count1, this`abcd, this`message, buf
      ensures Valid() && message == old(message) + data
    {
      hide Tracks, Counts, Fold, Whole, Tail, More0, More1;
      var p, left := 0, |data|;
      var offset := count0 / 8 % 64;
      CountsOffset(count0, count1, |message|);
      var nbits := 8 * |data| % TWO_32;
      if |data| <= 0 {
        assert message + data == message;
        return;
      }
      CountsMore(count0, count1, |message|, |data|);
      UpdateCount(|data|, nbits);
      ghost var m := message;
      message := message + data;
      if offset != 0 {
        var copy := if offset + |data| > 64 then 64 - offset else |data|;
        ghost var was := buf[..];
        TailIs(process, abcd, was, m);
        Copy(offset, data[..copy]);
        if offset + copy < 64 {
          assert data[..copy] == data;
          TailGrows(process, abcd, was, buf[..], m, data);
          return;
        }
        assert buf[..] == buf[..64];
        BlockDone(process, abcd, buf[..], buf[..], m, data[..copy]);
        m := m + data[..copy];
        p, left := p + copy, left - copy;
        abcd := process(abcd, buf[..]);
      }
      assert m == old(message) + data[..p];
      assert old(message) + data == m + data[p..];
      AppendBlocks(data, p, m);
    }

    /** Its loop over full blocks, and what is left behind them. */
    method AppendBlocks(data: seq<byte>, from: nat, ghost before: seq<byte>)
      requires from <= |data| && |before| % 64 == 0 && buf.Length == 64
      requires Tracks(process, abcd, buf[..], before)
      modifies this`abcd, buf
      ensures Tracks(process, abcd, buf[..], before + data[from..])
    {
      hide Tracks, Fold, Whole, Tail;
      var p, left := from, |data| - from;
      ghost var m := before;
      while left >= 64
        invariant from <= p <= |data| && left == |data| - p
        invariant m == before + data[from..p] && |m| % 64 == 0
        invariant Tracks(process, abcd, buf[..], m)
        modifies this`abcd
      {
        var block := data[p..p + 64];
        TailIs(process, abcd, buf[..], m);
        BlockDone(process, abcd, block, buf[..], m, block);
        SliceJoined(before, data, from, p, p + 64);
        abcd := process(abcd, block);
        m := m + block;
        p, left := p + 64, left - 64;
      }
      SliceJoined(before, data, from, p, |data|);
      ghost var was := buf[..];
      if left != 0 {
        Copy(0, data[p..]);
      }
      assert buf[..left] == data[p..];
      TailGrows(process, abcd, was, buf[..], m, data[p..]);
    }

    /** md5_finish */
    method Finish() returns (digest: seq<byte>)
      requires Valid()
      modifies this`count0, this`count1, this`abcd, this`message, buf
      ensures digest == Md5(process, old(message))
    {
      hide Tracks, Counts, Fold, Whole, Tail, LowBytes;
      ghost var m := message;
      var data := CountBytes();
      CountsOffset(count0, count1, |message|);
      ModuloOf(|m|, count0 / 8);
      var n := (55 - count0 / 8) % 64 + 1;
      Append(Pad()[..n]);
      Append(data);
      PaddedIs(m, n, data);
      TailIs(process, abcd, buf[..], message);
      WholeOf(message);
      digest := DigestBytes();
    }

    /** The counter in eight bytes. */
    method CountBytes() returns (data: seq<byte>)
      requires Valid()
      ensures data == LowBytes(8 * |message| % TWO_64, 8)
    {
      hide Tracks, Fold, Whole, Tail;
      data := [];
      var i := 0;
      while i < 8
        invariant 0 <= i <= 8
        invariant |data| == i && forall j :: 0 <= j < i ==>
                  data[j] == ByteAt(if j / 4 == 0 then count0 else count1, j % 4)
      {
        data := data + [ByteAt(if i / 4 == 0 then count0 else count1, i % 4)];
        i := i + 1;
      }
      CountIs(count0, count1, |message|, data);
    }

    /** The four words in sixteen bytes. */
    method DigestBytes() returns (digest: seq<byte>)
      ensures digest == Digest(abcd)
    {
      digest := [];
      var i := 0;
      while i < 16
        invariant 0 <= i <= 16
        invariant |digest| == i && forall j :: 0 <= j < i ==> digest[j] == ByteAt(NthWord(abcd, j / 4), j % 4)
      {
        digest := digest + [ByteAt(NthWord(abcd, i / 4), i % 4)];
        i := i + 1;
      }
      DigestIs(abcd, digest);
    }

    method UpdateCount(n: nat, nbits: uint32)
      requires nbits == 8 * n % TWO_32
      modifies this`count0, this`count1
      ensures count0 == More0(old(count0), n) && count1 == More1(old(count0), old(count1), n)
    {
      count1 := (count1 + n / TWO_29) % TWO_32;
      count0 := (count0 + nbits) % TWO_32;
      if count0 < nbits {
        count1 := (count1 + 1) % TWO_32;
      }
    }
  }

  /** However the message is cut into calls of md5_append, the digest is the same. */
  method HashPieces(f: Compression, pieces: seq<seq<byte>>) returns (digest: seq<byte>)
    requires forall i :: 0 <= i < |pieces| ==> |pieces[i]| + 64 <= TWO_64
    ensures digest == Md5(f, Concat(pieces))
  {
    hide Md5, Concat;
    var state := new State(f);
    NoPieces(pieces);
    for i := 0 to |pieces|
      invariant state.Valid() && fresh(state) && fresh(state.buf) && state.process == f
      invariant state.message == Concat(pieces[..i])
    {
      ConcatSnoc(pieces, i);
      state.Append(pieces[i]);
    }
    assert pieces[..|pieces|] == pieces;
    digest := state.Finish();
  }

  lemma NoPieces(pieces: seq<seq<byte>>)
    ensures Concat(pieces[..0]) == []
  {
  }

  // --------------------------------------------------------------- by numbers

  /** The initial words count up and down in their bytes, lowest first. */
  lemma InitialWords()
    ensures LowBytes(INIT.a, 4) == [0x01, 0x23, 0x45, 0x67] && LowBytes(INIT.b, 4) == [0x89, 0xAB, 0xCD, 0xEF]
    ensures LowBytes(INIT.c, 4) == [0xFE, 0xDC, 0xBA, 0x98] && LowBytes(INIT.d, 4) == [0x76, 0x54, 0x32, 0x10]
  {
  }

  lemma {:induction false} LowByteAt(n: nat, k: nat, i: nat)
    requires i < k
    ensures LowBytes(n, k)[i] == ByteAt(n, i)
    decreases i
  {
    if i > 0 {
      LowByteAt(n / 0x100, k - 1, i - 1);
    }
  }

  /** The padding, by its bytes: the message, 0x80, zeros, and the bit length, lowest byte
      first, in whole blocks and as few as can be. */
  lemma PaddedByNumber(m: seq<byte>, i: nat)
    requires i < |Padded(m)|
    ensures var p := Padded(m);
      && |p| % 64 == 0 && |m| + 9 <= |p| < |m| + 73
      && p[i] == if i < |m| then m[i] else if i == |m| then 0x80 else if i < |p| - 8 then 0
                 else ByteAt(8 * |m| % 0x1_0000_0000_0000_0000, i - (|p| - 8))
  {
    hide LowBytes;
    PaddedToBlocks(m);
    var p := Padded(m);
    if i >= |p| - 8 {
      LowByteAt(8 * |m| % TWO_64, 8, i - (|p| - 8));
    }
  }

  /** The digest: the four words, least significant byte first. */
  lemma DigestByNumber(w: Words, i: nat, j: nat)
    requires i < 4 && j < 4
    ensures |Digest(w)| == 16 && Digest(w)[4 * i + j] == ByteAt([w.a, w.b, w.c, w.d][i], j)
  {
    hide LowBytes, ByteAt;
    LowByteAt(w.a, 4, j);
    LowByteAt(w.b, 4, j);
    LowByteAt(w.c, 4, j);
    LowByteAt(w.d, 4, j);
  }
}
