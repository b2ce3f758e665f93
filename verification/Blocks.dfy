// Compressing a message block by block, as both hashes do.
module Blocks {
  import opened Bytes

  /** A state after each block of 64 bytes; what is left over does not count. */
  function Fold<W>(f: (W, seq<byte>) -> W, w: W, blocks: seq<byte>): W
    decreases |blocks|
  {
    if |blocks| < 64 then w else Fold(f, f(w, blocks[..64]), blocks[64..])
  }

  /** Compressing whole blocks and then the rest is compressing everything. */
  lemma {:induction false} FoldConcat<W>(f: (W, seq<byte>) -> W, w: W, a: seq<byte>, b: seq<byte>)
    requires |a| % 64 == 0
    ensures Fold(f, w, a + b) == Fold(f, Fold(f, w, a), b)
    decreases |a|
  {
    if |a| < 64 {
      assert a + b == b;
    } else {
      assert (a + b)[..64] == a[..64] && (a + b)[64..] == a[64..] + b;
      FoldConcat(f, f(w, a[..64]), a[64..], b);
    }
  }

  lemma OneBlock<W>(f: (W, seq<byte>) -> W, w: W, block: seq<byte>)
    requires |block| == 64
    ensures Fold(f, w, block) == f(w, block)
  {
    assert block[..64] == block && block[64..] == [];
  }

  lemma NoBlock<W>(f: (W, seq<byte>) -> W, w: W)
    ensures Fold(f, w, []) == w
  {
  }
}
