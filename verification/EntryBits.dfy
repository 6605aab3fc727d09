/**
 The fields of entries and addresses, bit by bit, as the kernel's masks and shifts
 select them; and the words that the editors leave in the tables.
 */
module EntryBits {
  import opened Wrappers
  import opened Arithmetic
  import opened Bits
  import opened PageTables
  import opened Mmu

  /** entry & 1, entry & (1 << 2), entry & (1 << 7) */
  lemma EntryFlags(e: int)
    ensures Present(e) == Bit(e, 0) && User(e) == Bit(e, 2) && Big(e) == Bit(e, 7)
  {
    Powers();
    BitShifted(e, 2, 0);
    BitShifted(e, 7, 0);
  }

  /** entry & 0x000FFFFF_FFFFF000 */
  lemma EntryAddress(e: int, i: nat)
    ensures Bit(Target(e), i) == (12 <= i < 52 && Bit(e, i))
  {
    Powers();
    var a := e / 4096;
    BitScaled(a % 0x100_0000_0000, 12, i);
    if i >= 12 {
      BitMasked(a, 40, i - 12);
      BitShifted(e, 12, i - 12);
    }
  }

  /** (virt_addr >> shift) & 0x1FF, with shifts 39, 30, 21 and 12 */
  lemma IndexBits(v: int, level: nat, i: nat)
    requires level < 4
    ensures Bit(Index(v, level), i) == (i < 9 && Bit(v, 39 - 9 * level + i))
  {
    Powers();
    var shift := 39 - 9 * level;
    assert Index(v, level) == v / Power(shift) % Power(9);
    BitMasked(v / Power(shift), 9, i);
    BitShifted(v, shift, i);
  }

  /** virt_addr & 0xFFF, & 0x1F_FFFF and & 0x3FFF_FFFF */
  lemma OffsetBits(v: int, i: nat)
    ensures Bit(v % 0x1000, i) == (i < 12 && Bit(v, i))
    ensures Bit(BigOffset(v, 2), i) == (i < 21 && Bit(v, i))
    ensures Bit(BigOffset(v, 1), i) == (i < 30 && Bit(v, i))
  {
    Powers();
    BitMasked(v, 12, i);
    BitMasked(v, 21, i);
    BitMasked(v, 30, i);
  }

  /** entry | 0x4 */
  lemma SetUserBits(e: int, i: nat)
    ensures Bit(SetUser(e), i) == (i == 2 || Bit(e, i))
  {
    Powers();
    EntryFlags(e);
    BitAfter(e, 2, i);
  }

  /** phys_frame | 0b11 */
  lemma LeafEntryBits(frame: int, i: nat)
    ensures Bit(LeafEntry(frame), i) == (i < 2 || Bit(frame, i))
  {
    Powers();
    var e, q := LeafEntry(frame), frame / 4;
    Quotient(e, 4, q, 3);
    Quotient(e, 2, 2 * q + 1, 1);
    Quotient(2 * q + 1, 2, q, 1);
    if i >= 2 {
      BitShifted(e, 2, i - 2);
      BitShifted(frame, 2, i - 2);
    } else if i == 1 {
      assert Bit(e, 1) == Bit(e / 2, 0);
    }
  }

  // ---------- the words that map_page leaves ----------

  /** The last word that the walk of `w` reads. */
  function LastWord(m: Memory, root: int, w: int): int
    requires TableAt(m, root, w, 3).Some?
  {
    Read(m, TableAt(m, root, w, 3).value + 8 * Index(w, 3))
  }

  /**
   After a completed call, every walk of the page ends in the frame's bits with bits 0 and 1 set:
   present and writable. For a frame that leaves its low twelve bits at 0b11, so without the user bit.
   */
  lemma MapPageWord(m: Memory, root: int, v: int, frame: int, w: int)
    requires Unaliased(m, root) && TableAt(m, root, v, 3).Some? && Page(w) == Page(v)
    ensures var m' := Mapped(m, root, v, frame);
            && TableAt(m', root, w, 3).Some?
            && (forall i: nat :: Bit(LastWord(m', root, w), i) <==> i < 2 || Bit(frame, i))
            && (IsFrame(frame) ==> LastWord(m', root, w) == frame + 3 && LastWord(m', root, w) % 0x1000 == 3
                                   && Bit(LastWord(m', root, w), 1) && !Bit(LastWord(m', root, w), 2))
  {
    PrefixIsAddress(v, 4);
    PrefixIsAddress(w, 4);
    EditHere(m, root, v, 3, LeafEntry(frame), w);
    FrameWord(frame);
    hide TableAt, Unaliased, Translate, WalkFrom, Prefix, LeafEntry, IsFrame, Bit, Index;
    forall i: nat
      ensures Bit(LeafEntry(frame), i) <==> i < 2 || Bit(frame, i)
    {
      LeafEntryBits(frame, i);
    }
  }

  lemma FrameWord(frame: int)
    ensures IsFrame(frame) ==> LeafEntry(frame) == frame + 3 && LeafEntry(frame) % 0x1000 == 3
    ensures IsFrame(frame) ==> Bit(LeafEntry(frame), 1) && !Bit(LeafEntry(frame), 2)
  {
    if IsFrame(frame) {
      var k := frame / 4096;
      Quotient(frame, 4, 1024 * k, 0);
      Quotient(frame + 3, 4096, k, 3);
      LeafEntryBits(frame, 1);
      LeafEntryBits(frame, 2);
      Powers();
      BitShifted(frame, 2, 0);
      Quotient(1024 * k, 2, 512 * k, 0);
    }
  }

  // ---------- the words that copy_trampoline leaves ----------

  /** PML4[0] and PDPT[0] are kept, or refer to the static tables with bits 0 and 1 set; PD[0] is a writable 2 MB page at 0. */
  lemma InjectedWords(m: Memory, root: int, pdpt: int, pd: int)
    requires Unaliased(m, root) && StaticTables(m, root, pdpt, pd) && !OneGigabyte(m, root)
    ensures var m' := Injected(m, root, pdpt, pd);
            var top := Read(m', root);
            var middle := Read(m', Target(top));
            && top == (if Present(Read(m, root)) then Read(m, root) else pdpt + 3)
            && middle == (if Present(Read(m, root)) && Present(Read(m, Target(top))) then Read(m, Target(top)) else pd + 3)
            && Read(m', Target(middle)) == 0x83
  {
    hide Target, Present, Big, LeafEntry, Unaliased, TableAt, Translate, Unused, OneGigabyte;
    var m1 := WithPdpt(m, root, pdpt);
    var t := Target(Read(m1, root));
    var m2 := WithPd(m1, root, pd);
    PdptInPlace(m, root, pdpt, pd, 0);
    PdInPlace(m1, root, t, pd, 0);
    PdpteIsTable(m, root, pdpt, pd);
    TableEntry(pdpt);
    TableEntry(pd);
    NextTable(m2, root, 1, t);
    TablesApart(m2, root, t, Target(Read(m2, t)));
    FrameWord(pdpt);
    FrameWord(pd);
    StaticPdptEmpty(m, root, pdpt, pd);
  }

  lemma TablesApart(m: Memory, root: int, t: int, u: int)
    requires Unaliased(m, root) && TableAt(m, root, 0, 1) == Some(t) && TableAt(m, root, 0, 2) == Some(u)
    ensures t != u && root != u
  {
    hide TableAt, Prefix;
    RootApart(m, root, 0, 2);
    assert Meet(m, root, 0, 1, 0, 2) ==> 1 == 2;
  }

  lemma StaticPdptEmpty(m: Memory, root: int, pdpt: int, pd: int)
    requires StaticTables(m, root, pdpt, pd)
    ensures pdpt != root && !Present(Read(m, pdpt))
  {
    assert TableAt(m, root, 0, 0) != Some(pdpt);
  }
}
