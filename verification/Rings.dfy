/** Positions in a ring of descriptors: the n-th item of a stream sits in slot n modulo the size. */
module Rings {
  import opened Arithmetic

  function Slot(n: int, size: int): (i: int)
    requires size > 0
    ensures 0 <= i < size
  {
    n % size
  }

  /** Items less than a whole ring apart sit in different slots. */
  lemma SlotsApart(a: int, b: int, size: int)
    requires size > 0 && a < b < a + size
    ensures Slot(a, size) != Slot(b, size)
  {
    if Slot(a, size) == Slot(b, size) {
      assert size * (b / size - a / size) == b - a;
      SmallMultiple(size, b / size - a / size);
    }
  }

  lemma NextSlot(n: int, size: int)
    requires size > 1
    ensures Slot(n + 1, size) == (Slot(n, size) + 1) % size
    ensures Slot(n + size, size) == Slot(n, size)
  {
    var q, r := n / size, n % size;
    Quotient(n + size, size, q + 1, r);
    if r + 1 == size {
      Quotient(n + 1, size, q + 1, 0);
      Quotient(r + 1, size, 1, 0);
    } else {
      Quotient(n + 1, size, q, r + 1);
      Quotient(r + 1, size, 0, r + 1);
    }
  }
}
