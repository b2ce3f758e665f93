// The in-place masking loops of frame.hpp, each proved against Masking.Masked.
// Input and output may be the same buffer. Pointer arguments are an array and
// the index `at` where the pointed-to bytes begin.
module MaskRoutines {
  import opened Bytes
  import opened Masking

  /** byte_mask */
  method ByteMask(input: array<byte>, output: array<byte>, at: nat, length: nat, key: MaskingKey, keyOffset: nat)
    requires at + length <= input.Length && at + length <= output.Length
    modifies output
    ensures output[at..at + length] == Masked(old(input[at..at + length]), key, keyOffset)
    ensures output[..at] == old(output[..at]) && output[at + length..] == old(output[at + length..])
  {
    var keyIndex := keyOffset % 4;
    var i := 0;
    while i < length
      invariant i <= length && keyIndex == (keyOffset + i) % 4
      invariant forall j :: at <= j < at + i ==> output[j] == MaskByte(old(input[j]), key, keyOffset + (j - at))
      invariant forall j :: 0 <= j < at ==> output[j] == old(output[j])
      invariant forall j :: at + i <= j < output.Length ==> output[j] == old(output[j])
      invariant input == output || forall j :: 0 <= j < input.Length ==> input[j] == old(input[j])
    {
      XorIsByte(input[at + i], key[keyIndex]);
      output[at + i] := Xor(input[at + i], key[keyIndex]);
      NextIndex(keyOffset + i);
      keyIndex := keyIndex + 1;
      keyIndex := keyIndex % 4;
      i := i + 1;
    }
  }

  /** byte_mask_circ: the key is the low half of the prepared key. */
  method ByteMaskCirc(input: array<byte>, output: array<byte>, at: nat, length: nat, prepared: nat,
                      ghost key: MaskingKey, ghost n: nat)
    returns (next: nat)
    requires at + length <= input.Length && at + length <= output.Length
    requires prepared == PreparedAt(key, n)
    modifies output
    ensures output[at..at + length] == Masked(old(input[at..at + length]), key, n)
    ensures output[..at] == old(output[..at]) && output[at + length..] == old(output[at + length..])
    ensures next == PreparedAt(key, n + length)
  {
    var word := prepared % TWO_32;
    LowHalf(key, n);
    MaskLoop(input, output, at, length, word, key, n);
    CircshiftPrepared(key, n, length % 4);
    PreparedPeriod(key, n, length, length % 4);
    next := Circshift(prepared, length % 4);
  }

  /** The loop of byte_mask_circ. */
  method MaskLoop(input: array<byte>, output: array<byte>, at: nat, length: nat, word: nat,
                  ghost key: MaskingKey, ghost n: nat)
    requires at + length <= input.Length && at + length <= output.Length
    requires word == LittleEndian(Rotated(key, n))
    modifies output
    ensures output[at..at + length] == Masked(old(input[at..at + length]), key, n)
    ensures output[..at] == old(output[..at]) && output[at + length..] == old(output[at + length..])
  {
    var i := 0;
    while i < length
      invariant i <= length
      invariant forall j :: at <= j < at + i ==> output[j] == MaskByte(old(input[j]), key, n + (j - at))
      invariant forall j :: 0 <= j < at ==> output[j] == old(output[j])
      invariant forall j :: at + i <= j < output.Length ==> output[j] == old(output[j])
      invariant input == output || forall j :: 0 <= j < input.Length ==> input[j] == old(input[j])
    {
      PreparedByte(key, n, i);
      XorIsByte(input[at + i], ByteAt(word, i % 4));
      output[at + i] := Xor(input[at + i], ByteAt(word, i % 4));
      i := i + 1;
    }
    MaskedSlice(old(input[at..at + length]), output[at..at + length], key, n);
  }

  lemma MaskedSlice(s: seq<byte>, r: seq<byte>, key: MaskingKey, n: nat)
    requires |r| == |s| && forall i :: 0 <= i < |s| ==> r[i] == MaskByte(s[i], key, n + i)
    ensures r == Masked(s, key, n)
  {
  }

  /** word_mask_exact */
  method WordMaskExact(input: array<byte>, output: array<byte>, length: nat, key: MaskingKey)
    requires length <= input.Length && length <= output.Length
    modifies output
    ensures output[..length] == Masked(old(input[..length]), key, 0)
    ensures output[length..] == old(output[length..])
  {
    var prepared := Prepare(key);
    assert prepared == PreparedAt(key, 0) by { assert Rotated(key, 0) == key; }
    var words := length / 8;
    MaskWords(input, output, words, prepared, key, 0);
    var i := words * 8;
    while i < length
      invariant words * 8 <= i <= length
      invariant forall j :: 0 <= j < i ==> output[j] == MaskByte(old(input[j]), key, j)
      invariant forall j :: i <= j < output.Length ==> output[j] == old(output[j])
      invariant input == output || forall j :: 0 <= j < input.Length ==> input[j] == old(input[j])
    {
      XorIsByte(input[i], key[i % 4]);
      output[i] := Xor(input[i], key[i % 4]);
      i := i + 1;
    }
  }

  /** word_mask_circ: whole words, then the rest with the bytes of the prepared key. */
  method WordMaskCirc(input: array<byte>, output: array<byte>, length: nat, prepared: nat,
                      ghost key: MaskingKey, ghost n: nat)
    returns (next: nat)
    requires length <= input.Length && length <= output.Length
    requires prepared == PreparedAt(key, n)
    modifies output
    ensures output[..length] == Masked(old(input[..length]), key, n)
    ensures output[length..] == old(output[length..])
    ensures next == PreparedAt(key, n + length)
  {
    hide PreparedAt, Circshift, MaskByte;
    var words := length / 8;
    var left := length - words * 8;
    MaskWords(input, output, words, prepared, key, n);
    MaskRest(input, output, length - left, left, prepared, key, n);
    CircshiftPrepared(key, n, left);
    PreparedPeriod(key, n, length, left);
    next := Circshift(prepared, left);
  }

  /** Its loop over the last bytes. */
  method MaskRest(input: array<byte>, output: array<byte>, start: nat, left: nat, prepared: nat,
                  ghost key: MaskingKey, ghost n: nat)
    requires start + left <= input.Length && start + left <= output.Length && start % 8 == 0 && left < 8
    requires prepared == PreparedAt(key, n)
    modifies output
    ensures forall j :: start <= j < start + left ==> output[j] == MaskByte(old(input[j]), key, n + j)
    ensures forall j :: 0 <= j < start || start + left <= j < output.Length ==> output[j] == old(output[j])
  {
    hide PreparedAt, ByteAt, Xor, MaskByte;
    var i := 0;
    while i < left
      invariant i <= left
      invariant forall j :: start <= j < start + i ==> output[j] == MaskByte(old(input[j]), key, n + j)
      invariant forall j :: 0 <= j < start || start + i <= j < output.Length ==> output[j] == old(output[j])
      invariant input == output || forall j :: 0 <= j < input.Length ==> input[j] == old(input[j])
    {
      MaskedByPrepared(input[start + i], key, n, start, i);
      output[start + i] := Xor(input[start + i], ByteAt(prepared, i));
      i := i + 1;
    }
  }

  lemma MaskedByPrepared(b: byte, key: MaskingKey, n: nat, at: nat, k: nat)
    requires at % 8 == 0 && k < 8
    ensures Xor(b, ByteAt(PreparedAt(key, n), k)) == MaskByte(b, key, n + (at + k))
  {
    hide PreparedAt, ByteAt, Xor;
    PreparedWordByte(key, n, at, k);
  }

  /** The word loop the two word routines share: output_word[i] = input_word[i] ^ prepared. */
  method MaskWords(input: array<byte>, output: array<byte>, words: nat, prepared: nat,
                   ghost key: MaskingKey, ghost n: nat)
    requires 8 * words <= input.Length && 8 * words <= output.Length
    requires prepared == PreparedAt(key, n)
    modifies output
    ensures forall j :: 0 <= j < 8 * words ==> output[j] == MaskByte(old(input[j]), key, n + j)
    ensures forall j :: 8 * words <= j < output.Length ==> output[j] == old(output[j])
    ensures input == output || forall j :: 0 <= j < input.Length ==> input[j] == old(input[j])
  {
    var i := 0;
    while i < words
      invariant i <= words
      invariant forall j :: 0 <= j < 8 * i ==> output[j] == MaskByte(old(input[j]), key, n + j)
      invariant forall j :: 8 * i <= j < output.Length ==> output[j] == old(output[j])
      invariant input == output || forall j :: 0 <= j < input.Length ==> input[j] == old(input[j])
    {
      MaskWord(input, output, 8 * i, prepared, key, n);
      i := i + 1;
    }
  }

  method MaskWord(input: array<byte>, output: array<byte>, at: nat, prepared: nat,
                  ghost key: MaskingKey, ghost n: nat)
    requires at + 8 <= input.Length && at + 8 <= output.Length && at % 8 == 0
    requires prepared == PreparedAt(key, n)
    modifies output
    ensures forall j :: at <= j < at + 8 ==> output[j] == MaskByte(old(input[j]), key, n + j)
    ensures forall j :: 0 <= j < at || at + 8 <= j < output.Length ==> output[j] == old(output[j])
  {
    ghost var bytes := input[at..at + 8];
    var word := Xor(LittleEndian(input[at..at + 8]), prepared);
    StoreWord(output, at, word);
    forall j | at <= j < at + 8 ensures output[j] == MaskByte(old(input[j]), key, n + j) {
      MaskedWordByte(bytes, key, n, at, j - at);
      assert bytes[j - at] == old(input[j]);
      assert output[at + (j - at)] == ByteAt(word, j - at);
    }
  }

  lemma MaskedWordByte(bytes: seq<byte>, key: MaskingKey, n: nat, at: nat, k: nat)
    requires |bytes| == 8 && at % 8 == 0 && k < 8
    ensures ByteAt(Xor(LittleEndian(bytes), PreparedAt(key, n)), k) == MaskByte(bytes[k], key, n + (at + k))
  {
    XorByteAt(LittleEndian(bytes), PreparedAt(key, n), k);
    LittleEndianByteAt(bytes, k);
    PreparedWordByte(key, n, at, k);
  }

  /** Writes a word into memory, low byte first. */
  method StoreWord(output: array<byte>, at: nat, word: nat)
    requires at + 8 <= output.Length
    modifies output
    ensures forall k :: 0 <= k < 8 ==> output[at + k] == ByteAt(word, k)
    ensures forall j :: 0 <= j < at || at + 8 <= j < output.Length ==> output[j] == old(output[j])
  {
    var k := 0;
    while k < 8
      invariant k <= 8
      invariant forall j :: 0 <= j < k ==> output[at + j] == ByteAt(word, j)
      invariant forall j :: 0 <= j < at || at + k <= j < output.Length ==> output[j] == old(output[j])
    {
      output[at + k] := ByteAt(word, k);
      k := k + 1;
    }
  }

  // ------------------------------------------------- bytes of prepared keys

  lemma LowHalf(key: MaskingKey, n: nat)
    ensures PreparedAt(key, n) % TWO_32 == LittleEndian(Rotated(key, n))
  {
    hide Rotated, LittleEndian;
    PreparedTwice(Rotated(key, n));
    LowWord32(PreparedAt(key, n), LittleEndian(Rotated(key, n)), LittleEndian(Rotated(key, n)));
  }

  lemma LowWord32(a: nat, b: nat, k: nat)
    requires a == b + TWO_32 * k && b < TWO_32
    ensures a % TWO_32 == b
  {
  }

  lemma PreparedByte(key: MaskingKey, n: nat, i: nat)
    ensures ByteAt(LittleEndian(Rotated(key, n)), i % 4) == key[(n + i) % 4]
  {
    LittleEndianByteAt(Rotated(key, n), i % 4);
    RotatedAt(key, n, i);
  }

  /** Byte k of the prepared key masks byte k of any word that begins a multiple
      of 8 bytes after position n. */
  lemma PreparedWordByte(key: MaskingKey, n: nat, at: nat, k: nat)
    requires at % 8 == 0 && k < 8
    ensures ByteAt(PreparedAt(key, n), k) == key[(n + (at + k)) % 4]
  {
    var c: seq<byte> := Rotated(key, n);
    PreparedTwice(c);
    LittleEndianByteAt(c + c, k);
    DoubledAt(c, k);
    RotatedAt(key, n, k);
    AlignedIndex(n, at, k);
  }

  lemma AlignedIndex(n: nat, at: nat, k: nat)
    requires at % 8 == 0
    ensures (n + (at + k)) % 4 == (n + k) % 4
  {
    var q := at / 8;
    assert at == 8 * q;
    AddMultiple(n + k, 2 * q);
  }

  lemma AddMultiple(x: nat, q: nat)
    ensures (x + 4 * q) % 4 == x % 4
  {
  }

  lemma NextIndex(m: nat)
    ensures (m % 4 + 1) % 4 == (m + 1) % 4
  {
  }

  /** A prepared key depends on the position only modulo 4. */
  lemma PreparedPeriod(key: MaskingKey, n: nat, a: nat, b: nat)
    requires a % 4 == b % 4
    ensures PreparedAt(key, n + a) == PreparedAt(key, n + b)
  {
    assert (n + a) % 4 == (n + b) % 4;
  }
}
