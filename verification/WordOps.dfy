// The bitwise operators of 32-bit words, bit by bit from the least significant end.
module WordOps {
  import opened Bytes

  function Pow2(k: nat): (p: nat)
    ensures p > 0
  {
    if k == 0 then 1 else 2 * Pow2(k - 1)
  }

  function And(x: nat, y: nat): nat
    decreases x + y
  {
    if x == 0 && y == 0 then 0 else (if x % 2 == 1 && y % 2 == 1 then 1 else 0) + 2 * And(x / 2, y / 2)
  }

  function Or(x: nat, y: nat): nat
    decreases x + y
  {
    if x == 0 && y == 0 then 0 else (if x % 2 == 1 || y % 2 == 1 then 1 else 0) + 2 * Or(x / 2, y / 2)
  }

  lemma {:induction false} AndBit(x: nat, y: nat)
    ensures And(x, y) == (if x % 2 == 1 && y % 2 == 1 then 1 else 0) + 2 * And(x / 2, y / 2)
  {
    if x == 0 && y == 0 {
      assert And(0, 0) == 0;
    }
  }

  lemma {:induction false} OrBit(x: nat, y: nat)
    ensures Or(x, y) == (if x % 2 == 1 || y % 2 == 1 then 1 else 0) + 2 * Or(x / 2, y / 2)
  {
    if x == 0 && y == 0 {
      assert Or(0, 0) == 0;
    }
  }

  lemma Halved(x: nat, k: nat)
    requires k > 0 && x < Pow2(k)
    ensures x / 2 < Pow2(k - 1)
  {
  }

  /** The operators stay within the width. */
  lemma {:induction false} Within(x: nat, y: nat, k: nat)
    requires x < Pow2(k) && y < Pow2(k)
    ensures And(x, y) < Pow2(k) && Or(x, y) < Pow2(k) && Xor(x, y) < Pow2(k)
    decreases k
  {
    hide And, Or, Xor;
    AndBit(x, y);
    OrBit(x, y);
    XorBit(x, y);
    if k > 0 {
      Halved(x, k);
      Halved(y, k);
      Within(x / 2, y / 2, k - 1);
    } else {
      Nothing();
    }
  }

  lemma Nothing()
    ensures And(0, 0) == 0 && Or(0, 0) == 0 && Xor(0, 0) == 0
  {
  }

  lemma Width()
    ensures Pow2(8) == 0x100 && Pow2(16) == 0x1_0000 && Pow2(24) == 0x100_0000 && Pow2(32) == TWO_32
  {
    assert Pow2(8) == 0x100;
    assert Pow2(12) == 0x1000;
    assert Pow2(16) == 0x1_0000;
    assert Pow2(20) == 0x10_0000;
    assert Pow2(24) == 0x100_0000;
    assert Pow2(28) == 0x1000_0000;
  }

  lemma {:induction false} OrZero(y: nat)
    ensures Or(0, y) == y && Or(y, 0) == y
  {
    if y != 0 {
      OrZero(y / 2);
    }
  }

  /** z shifted left by k bits. */
  function Shifted(z: nat, k: nat): nat { if k == 0 then z else 2 * Shifted(z, k - 1) }

  lemma ShiftedBytes(z: nat)
    ensures Shifted(z, 8) == 0x100 * z && Shifted(z, 16) == 0x1_0000 * z && Shifted(z, 24) == 0x100_0000 * z
    ensures Shifted(z, 32) == TWO_32 * z
  {
    hide Shifted;
    NotShifted(z);
    ByteShift(z, 0);
    ByteShift(z, 8);
    ByteShift(z, 16);
    ByteShift(z, 24);
  }

  lemma NotShifted(z: nat)
    ensures Shifted(z, 0) == z
  {
  }

  lemma ByteShift(z: nat, k: nat)
    ensures Shifted(z, k + 8) == 0x100 * Shifted(z, k)
  {
    assert Shifted(z, k + 2) == 4 * Shifted(z, k);
    assert Shifted(z, k + 4) == 16 * Shifted(z, k);
    assert Shifted(z, k + 6) == 64 * Shifted(z, k);
  }

  /** Disjunction of disjoint bits is addition. */
  lemma {:induction false} OrAdds(x: nat, z: nat, k: nat)
    requires x < Pow2(k)
    ensures Or(x, Shifted(z, k)) == x + Shifted(z, k) && Or(Shifted(z, k), x) == x + Shifted(z, k)
    decreases k
  {
    hide Or;
    if k == 0 {
      OrZero(z);
    } else {
      OrBit(x, Shifted(z, k));
      OrBit(Shifted(z, k), x);
      Halved(x, k);
      OrAdds(x / 2, z, k - 1);
    }
  }

  function Not(x: uint32): uint32 { TWO_32 - 1 - x }

  /** Choice: its two parts are disjoint, so either disjunction serves. */
  lemma {:induction false} ChoiceEither(x: nat, y: nat, z: nat, k: nat)
    requires x < Pow2(k) && y < Pow2(k) && z < Pow2(k)
    ensures Or(And(x, y), And(Pow2(k) - 1 - x, z)) == Xor(And(x, y), And(Pow2(k) - 1 - x, z))
    decreases k
  {
    hide And, Or, Xor;
    if k == 0 {
      Nothing();
    } else {
      var n := Pow2(k) - 1 - x;
      Halved(x, k);
      Halved(y, k);
      Halved(z, k);
      assert n % 2 == 1 - x % 2 && n / 2 == Pow2(k - 1) - 1 - x / 2;
      ChoiceEither(x / 2, y / 2, z / 2, k - 1);
      AndBit(x, y);
      AndBit(n, z);
      OrBit(And(x, y), And(n, z));
      XorBit(And(x, y), And(n, z));
    }
  }

  /** Majority likewise. */
  lemma {:induction false} MajorityEither(x: nat, y: nat, z: nat)
    ensures Or(Or(And(x, y), And(x, z)), And(y, z)) == Xor(Xor(And(x, y), And(x, z)), And(y, z))
    decreases x + y + z
  {
    hide And, Or, Xor;
    var a, b, c := And(x, y), And(x, z), And(y, z);
    if x == 0 && y == 0 && z == 0 {
      Nothing();
    } else {
      MajorityEither(x / 2, y / 2, z / 2);
      AndBit(x, y);
      AndBit(x, z);
      AndBit(y, z);
      OrBit(a, b);
      OrBit(Or(a, b), c);
      XorBit(a, b);
      XorBit(Xor(a, b), c);
    }
  }

  lemma ShiftedBits(z: nat)
    ensures Shifted(z, 1) == 2 * z && Shifted(z, 5) == 0x20 * z && Shifted(z, 30) == 0x4000_0000 * z
  {
    ShiftedBytes(z);
    assert Shifted(z, 26) == 4 * Shifted(z, 24);
    assert Shifted(z, 28) == 4 * Shifted(z, 26);
    assert Shifted(z, 30) == 4 * Shifted(z, 28);
    NotShifted(z);
    assert Shifted(z, 1) == 2 * Shifted(z, 0);
    assert Shifted(z, 3) == 4 * Shifted(z, 1);
    assert Shifted(z, 5) == 4 * Shifted(z, 3);
  }

  lemma Widths()
    ensures Pow2(1) == 2 && Pow2(5) == 0x20 && Pow2(30) == 0x4000_0000
  {
    Width();
    assert Pow2(28) == 0x1000_0000;
  }

  // ---------------------------------------------------------------- one bit

  function BitAt(n: nat, i: nat): nat { if i == 0 then n % 2 else BitAt(n / 2, i - 1) }

  /** The operators bit by bit. */
  lemma {:induction false} BitwiseAt(x: nat, y: nat, i: nat)
    ensures BitAt(And(x, y), i) == (if BitAt(x, i) == 1 && BitAt(y, i) == 1 then 1 else 0)
    ensures BitAt(Or(x, y), i) == (if BitAt(x, i) == 1 || BitAt(y, i) == 1 then 1 else 0)
    ensures BitAt(Xor(x, y), i) == (if BitAt(x, i) != BitAt(y, i) then 1 else 0)
    decreases i
  {
    hide And, Or, Xor;
    AndBit(x, y);
    OrBit(x, y);
    XorBit(x, y);
    if i > 0 {
      BitwiseAt(x / 2, y / 2, i - 1);
    }
  }

  lemma {:induction false} BitIsBit(x: nat, i: nat)
    ensures BitAt(x, i) in {0, 1}
    decreases i
  {
    if i > 0 {
      BitIsBit(x / 2, i - 1);
    }
  }

  lemma {:induction false} ComplementAt(x: nat, k: nat, i: nat)
    requires x < Pow2(k) && i < k
    ensures BitAt(Pow2(k) - 1 - x, i) == 1 - BitAt(x, i)
    decreases i
  {
    var n := Pow2(k) - 1 - x;
    assert n % 2 == 1 - x % 2 && n / 2 == Pow2(k - 1) - 1 - x / 2;
    if i > 0 {
      Halved(x, k);
      ComplementAt(x / 2, k - 1, i - 1);
    }
  }
}
