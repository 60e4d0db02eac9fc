/**
 32-bit words (click/include/click/bitvector.hh, word_type): which bits are one
 after |, &, ~, ^, <<, >> and masking.
 */
module Words {

  function LowAmount(i: nat): (a: bv6)
    requires i < 16
    ensures a < 16 && (a == 0 <==> i == 0)
  {
    if i == 0 then 0
    else if i == 1 then 1
    else if i == 2 then 2
    else if i == 3 then 3
    else if i == 4 then 4
    else if i == 5 then 5
    else if i == 6 then 6
    else if i == 7 then 7
    else if i == 8 then 8
    else if i == 9 then 9
    else if i == 10 then 10
    else if i == 11 then 11
    else if i == 12 then 12
    else if i == 13 then 13
    else if i == 14 then 14
    else 15
  }

  /** A shift amount, as the machine has it. */
  function Amount(i: nat): (a: bv6)
    requires i < 32
    ensures a < 32 && (a == 0 <==> i == 0)
  {
    if i < 16 then LowAmount(i) else 16 + LowAmount(i - 16)
  }

  predicate BitAtAmount(w: bv32, a: bv6)
    requires a < 32
  {
    (w >> a) & 1 == 1
  }

  predicate Bit(w: bv32, i: nat) {
    i < 32 && BitAtAmount(w, Amount(i))
  }

  function ShlBy(w: bv32, a: bv6): bv32
    requires a < 32
  {
    w << a
  }

  function Shl(w: bv32, k: nat): bv32
    requires k < 32
  {
    ShlBy(w, Amount(k))
  }

  function ShrBy(w: bv32, a: bv6): bv32
    requires a < 32
  {
    w >> a
  }

  function Shr(w: bv32, k: nat): bv32
    requires k < 32
  {
    ShrBy(w, Amount(k))
  }

  function Or(a: bv32, b: bv32): bv32 {
    a | b
  }

  function And(a: bv32, b: bv32): bv32 {
    a & b
  }

  function Xor(a: bv32, b: bv32): bv32 {
    a ^ b
  }

  function Not(a: bv32): bv32 {
    !a
  }

  /** (1 << k) - 1 */
  function Below(k: nat): bv32
    requires k < 32
  {
    (1 << Amount(k)) - 1
  }

  lemma AmountStep(i: nat)
    requires 0 < i < 32
    ensures Amount(i) == Amount(i - 1) + 1
  {
    hide LowAmount;
    if i < 16 {
      LowAmountStep(i);
    } else if i == 16 {
      LowAmountEnds();
    } else {
      LowAmountStep(i - 16);
    }
  }

  lemma LowAmountStep(i: nat)
    requires 0 < i < 16
    ensures LowAmount(i) == LowAmount(i - 1) + 1
  {}

  lemma LowAmountEnds()
    ensures LowAmount(0) == 0 && LowAmount(15) == 15
  {}

  lemma {:induction false} AmountMinus(i: nat, k: nat)
    requires k <= i < 32
    ensures Amount(i - k) == Amount(i) - Amount(k)
    decreases k
  {
    hide Amount;
    if k > 0 {
      AmountMinus(i, k - 1);
      AmountStep(k);
      AmountStep(i - (k - 1));
    }
  }

  lemma AmountOrder(i: nat, k: nat)
    requires i < 32 && k < 32
    ensures Amount(k) <= Amount(i) <==> k <= i
  {
    hide Amount;
    if k <= i {
      AmountMinus(i, k);
      Unwrapped(Amount(i), Amount(k));
    } else {
      AmountMinus(k, i);
      Unwrapped(Amount(k), Amount(i));
    }
  }

  lemma Unwrapped(a: bv6, b: bv6)
    requires a < 32 && b < 32 && a - b < 32
    ensures b <= a && (a - b != 0 ==> b < a)
  {}

  lemma OrMoves(a: bv32, b: bv32, k: bv6)
    requires k < 32
    ensures BitAtAmount(Or(a, b), k) <==> BitAtAmount(a, k) || BitAtAmount(b, k)
  {
    assert ((a | b) >> k) & 1 == ((a >> k) & 1) | ((b >> k) & 1);
  }

  lemma XorMoves(a: bv32, b: bv32, k: bv6)
    requires k < 32
    ensures BitAtAmount(Xor(a, b), k) <==> BitAtAmount(a, k) != BitAtAmount(b, k)
  {
    assert ((a ^ b) >> k) & 1 == ((a >> k) & 1) ^ ((b >> k) & 1);
  }

  lemma BitOr(a: bv32, b: bv32, i: nat)
    ensures Bit(Or(a, b), i) <==> Bit(a, i) || Bit(b, i)
  {
    hide Amount, BitAtAmount, Or;
    if i < 32 {
      OrMoves(a, b, Amount(i));
    }
  }

  lemma BitXor(a: bv32, b: bv32, i: nat)
    ensures Bit(Xor(a, b), i) <==> Bit(a, i) != Bit(b, i)
  {
    hide Amount, BitAtAmount, Xor;
    if i < 32 {
      XorMoves(a, b, Amount(i));
    }
  }

  lemma BitAnd(a: bv32, b: bv32, i: nat)
    ensures Bit(And(a, b), i) <==> Bit(a, i) && Bit(b, i)
  {
    hide Bit, And, Or, Xor;
    AndIsXor(a, b);
    BitXor(Or(a, b), Xor(a, b), i);
    BitOr(a, b, i);
    BitXor(a, b, i);
  }

  lemma AndIsXor(a: bv32, b: bv32)
    ensures And(a, b) == Xor(Or(a, b), Xor(a, b))
  {}

  lemma BitNot(a: bv32, i: nat)
    ensures Bit(Not(a), i) <==> i < 32 && !Bit(a, i)
  {
    hide Bit, Not, Xor;
    NotIsXor(a);
    BitXor(a, 0xFFFF_FFFF, i);
    if i < 32 {
      OnesHasAll(i);
    } else {
      NoBit(a, i);
      NoBit(Not(a), i);
    }
  }

  lemma NotIsXor(a: bv32)
    ensures Not(a) == Xor(a, 0xFFFF_FFFF)
  {}

  lemma NoBit(a: bv32, i: nat)
    requires i >= 32
    ensures !Bit(a, i)
  {}

  lemma BitShl(w: bv32, k: nat, i: nat)
    requires k < 32 && i < 32
    ensures Bit(Shl(w, k), i) <==> k <= i && Bit(w, i - k)
  {
    hide Amount, BitAtAmount, ShlBy;
    AmountOrder(i, k);
    ShlMoves(w, Amount(k), Amount(i));
    if k <= i {
      AmountMinus(i, k);
    }
  }

  lemma ShlMoves(w: bv32, k: bv6, i: bv6)
    requires k < 32 && i < 32
    ensures BitAtAmount(ShlBy(w, k), i) <==> k <= i && BitAtAmount(w, i - k)
  {
    assert ((w << k) >> i) & 1 == if k <= i then (w >> (i - k)) & 1 else 0;
  }

  lemma BitShr(w: bv32, k: nat, i: nat)
    requires k < 32 && i < 32
    ensures Bit(Shr(w, k), i) <==> i + k < 32 && Bit(w, i + k)
  {
    hide Amount, BitAtAmount, ShrBy;
    AmountSum(i, k);
    ShrMoves(w, Amount(k), Amount(i));
  }

  lemma ShrMoves(w: bv32, k: bv6, i: bv6)
    requires k < 32 && i < 32
    ensures BitAtAmount(ShrBy(w, k), i) <==> i <= 31 - k && BitAtAmount(w, i + k)
  {
    assert ((w >> k) >> i) & 1 == if i <= 31 - k then (w >> (i + k)) & 1 else 0;
  }

  lemma AmountSum(i: nat, k: nat)
    requires k < 32 && i < 32
    ensures Amount(i) <= 31 - Amount(k) <==> i + k < 32
    ensures i + k < 32 ==> Amount(i + k) == Amount(i) + Amount(k)
  {
    hide Amount;
    AmountTop();
    AmountMinus(31, k);
    AmountOrder(31 - k, i);
    if i + k < 32 {
      AmountMinus(i + k, k);
    }
  }

  lemma AmountTop()
    ensures Amount(31) == 31
  {}

  lemma BitBelow(k: nat, i: nat)
    requires k < 32 && i < 32
    ensures Bit(Below(k), i) <==> i < k
  {
    hide Amount, BitAtAmount;
    MaskMoves(Amount(k), Amount(i));
    AmountOrder(i, k);
  }

  lemma MaskMoves(k: bv6, i: bv6)
    requires k < 32 && i < 32
    ensures BitAtAmount((1 as bv32 << k) - 1, i) <==> i < k
  {}

  lemma ZeroHasNone(i: nat)
    ensures !Bit(0, i)
  {
    hide Amount;
  }

  lemma OnesHasAll(i: nat)
    requires i < 32
    ensures Bit(0xFFFF_FFFF, i)
  {
    hide Amount;
  }

  /** A word that is not zero has a one bit. */
  lemma NoneIsZero(w: bv32)
    requires forall i: nat :: i < 32 ==> !Bit(w, i)
    ensures w == 0
  {
    assert !Bit(w, 0);
    assert !Bit(w, 1);
    assert !Bit(w, 2);
    assert !Bit(w, 3);
    assert !Bit(w, 4);
    assert !Bit(w, 5);
    assert !Bit(w, 6);
    assert !Bit(w, 7);
    assert !Bit(w, 8);
    assert !Bit(w, 9);
    assert !Bit(w, 10);
    assert !Bit(w, 11);
    assert !Bit(w, 12);
    assert !Bit(w, 13);
    assert !Bit(w, 14);
    assert !Bit(w, 15);
    assert !Bit(w, 16);
    assert !Bit(w, 17);
    assert !Bit(w, 18);
    assert !Bit(w, 19);
    assert !Bit(w, 20);
    assert !Bit(w, 21);
    assert !Bit(w, 22);
    assert !Bit(w, 23);
    assert !Bit(w, 24);
    assert !Bit(w, 25);
    assert !Bit(w, 26);
    assert !Bit(w, 27);
    assert !Bit(w, 28);
    assert !Bit(w, 29);
    assert !Bit(w, 30);
    assert !Bit(w, 31);
  }
}
