/** Single bits of a word, as the bitmap code tests, sets and clears them. */
module Bits {
  import opened Arithmetic

  // 1 << i
  function Power(i: nat): (p: nat)
    ensures p > 0
  {
    if i == 0 then 1 else 2 * Power(i - 1)
  }

  // w & (1 << i) != 0
  predicate Bit(w: int, i: nat)
    decreases i
  {
    if i == 0 then w % 2 == 1 else Bit(w / 2, i - 1)
  }

  // w | (1 << i)
  function SetBit(w: int, i: nat): int { if Bit(w, i) then w else w + Power(i) }

  // w & !(1 << i)
  function ClearBit(w: int, i: nat): int { if Bit(w, i) then w - Power(i) else w }

  lemma {:induction false} BitAdded(w: int, i: nat, j: nat)
    requires !Bit(w, i)
    ensures Bit(w + Power(i), j) == (j == i || Bit(w, j))
    decreases i
  {
    if i > 0 {
      assert (w + Power(i)) / 2 == w / 2 + Power(i - 1);
      if j > 0 { BitAdded(w / 2, i - 1, j - 1); }
    } else {
      assert (w + 1) / 2 == w / 2;
    }
  }

  lemma BitAfter(w: int, i: nat, j: nat)
    ensures Bit(SetBit(w, i), j) == (j == i || Bit(w, j))
    ensures Bit(ClearBit(w, i), j) == (j != i && Bit(w, j))
  {
    if Bit(w, i) {
      BitRemoved(w, i, j);
    } else {
      BitAdded(w, i, j);
    }
  }

  lemma {:induction false} BitRemoved(w: int, i: nat, j: nat)
    requires Bit(w, i)
    ensures Bit(w - Power(i), j) == (j != i && Bit(w, j))
    decreases i
  {
    if i > 0 {
      assert (w - Power(i)) / 2 == w / 2 - Power(i - 1);
      if j > 0 { BitRemoved(w / 2, i - 1, j - 1); }
    } else {
      assert (w - 1) / 2 == w / 2;
    }
  }

  // ---------- shifts and masks ----------

  lemma {:induction false} ZeroBits(i: nat)
    ensures !Bit(0, i)
  {
    if i > 0 { ZeroBits(i - 1); }
  }

  /** w >> k */
  lemma {:induction false} BitShifted(w: int, k: nat, i: nat)
    ensures Bit(w / Power(k), i) == Bit(w, i + k)
    decreases k
  {
    if k > 0 {
      DivDiv(w, 2, Power(k - 1));
      BitShifted(w / 2, k - 1, i);
    }
  }

  /** w & ((1 << k) - 1) */
  lemma {:induction false} BitMasked(w: int, k: nat, i: nat)
    ensures Bit(w % Power(k), i) == (i < k && Bit(w, i))
    decreases k
  {
    if k == 0 {
      ZeroBits(i);
    } else {
      var x, p := w % Power(k), Power(k - 1);
      ModSplit(w, 2, p);
      Quotient(x, 2, w / 2 % p, w % 2);
      if i > 0 { BitMasked(w / 2, k - 1, i - 1); }
    }
  }

  /** w << k */
  lemma {:induction false} BitScaled(w: int, k: nat, i: nat)
    ensures Bit(w * Power(k), i) == (i >= k && Bit(w, i - k))
    decreases k
  {
    if k > 0 {
      var x := w * Power(k - 1);
      assert w * Power(k) == 2 * x;
      Quotient(2 * x, 2, x, 0);
      if i > 0 { BitScaled(w, k - 1, i - 1); }
    }
  }

  lemma Powers()
    ensures Power(2) == 4 && Power(7) == 0x80 && Power(9) == 0x200 && Power(12) == 0x1000
    ensures Power(21) == 0x20_0000 && Power(30) == 0x4000_0000 && Power(39) == 0x80_0000_0000 && Power(40) == 0x100_0000_0000
  {
    assert Power(12) == 4096;
    assert Power(24) == 0x100_0000;
    assert Power(36) == 0x10_0000_0000;
  }
}
