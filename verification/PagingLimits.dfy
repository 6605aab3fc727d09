/**
 Memories at which the paging code falls short of what it is for. Each of them
 shows that the condition of an exact result is needed.
 */
module PagingLimits {
  import opened Wrappers
  import opened PageTables
  import opened Mmu

  const ROOT := 0x1000

  /** A full walk whose PML4 entry has bit 7 set, which the architecture reserves and the walker ignores. */
  const BIT7: Memory := map[0x1000 := 0x2083, 0x2000 := 0x3003, 0x3000 := 0x4003, 0x4000 := 0x5003]

  /** A 1 GB page at 0 with bit 12, its PAT bit, set. */
  const PAT: Memory := map[0x1000 := 0x2003, 0x2000 := 0x1083]

  /** A 1 GB page that maps the lowest addresses to the second gigabyte. */
  const SHIFTED: Memory := map[0x1000 := 0x2003, 0x2000 := 0x4000_0083]

  lemma TableEntries()
    ensures Present(0x2083) && Big(0x2083) && Target(0x2083) == 0x2000
    ensures Present(0x2003) && !Big(0x2003) && Target(0x2003) == 0x2000
    ensures Present(0x3003) && !Big(0x3003) && Target(0x3003) == 0x3000 && !User(0x3003)
    ensures Present(0x4003) && !Big(0x4003) && Target(0x4003) == 0x4000
    ensures Present(0x5003) && Target(0x5003) == 0x5000
  {}

  lemma PageEntries()
    ensures Present(0x1083) && Big(0x1083) && Target(0x1083) == 0x1000
    ensures Present(0x4000_0083) && Big(0x4000_0083) && Target(0x4000_0083) == 0x4000_0000
  {}

  lemma ZeroSlots(table: int)
    ensures Slot(table, 0, 0) == table && Slot(table, 0, 1) == table && Slot(table, 0, 2) == table && Slot(table, 0, 3) == table
  {}

  lemma Bit7Translates()
    ensures Translate(BIT7, ROOT, 0) == Some(0x5000)
  {
    TableEntries();
    ZeroSlots(0x1000);
    ZeroSlots(0x2000);
    ZeroSlots(0x3000);
    ZeroSlots(0x4000);
    hide Slot, Present, Big, Target;
    assert WalkFrom(BIT7, 0x5000, 0, 4) == Some(0x5000);
    assert WalkFrom(BIT7, 0x4000, 0, 3) == Some(0x5000);
    assert WalkFrom(BIT7, 0x3000, 0, 2) == Some(0x5000);
    assert WalkFrom(BIT7, 0x2000, 0, 1) == Some(0x5000);
  }

  /** The walker goes through a PML4 entry that makes every processor fault. */
  lemma WalkerIgnoresReservedBit(cpu: Processor)
    ensures Translate(BIT7, ROOT, 0) == Some(0x5000)
    ensures ArchitectureFrom(cpu, BIT7, ROOT, 0, 0) == None
  {
    Bit7Translates();
    TableEntries();
    ZeroSlots(0x1000);
    hide Slot, Present, Big, Target, Translate;
  }

  /** Both readings of address 0 under a 1 GB page. */
  lemma GigabyteAtZero(cpu: Processor, m: Memory, root: int, e: int, page: int)
    requires Read(m, root) == e && Present(e) && !Reserved(cpu, e, 0)
    requires Read(m, Target(e)) == page && Present(page) && Big(page) && !Reserved(cpu, page, 1)
    ensures Translate(m, root, 0) == Some(Target(page)) && ArchitectureFrom(cpu, m, root, 0, 0) == Some(GigabyteBase(page))
  {
    ZeroSlots(root);
    ZeroSlots(Target(e));
    hide Slot, Present, Big, Target, Reserved, GigabyteBase;
    assert WalkFrom(m, Target(e), 0, 1) == Some(Target(page));
    assert ArchitectureFrom(cpu, m, Target(e), 0, 1) == Some(GigabyteBase(page));
  }

  lemma PatNotReserved(cpu: Processor)
    requires cpu.gigabytePages && cpu.limit > 0x4000_0000
    ensures !Reserved(cpu, 0x2003, 0) && !Reserved(cpu, 0x1083, 1) && GigabyteBase(0x1083) == 0
  {
    TableEntries();
    PageEntries();
    hide Target, Big;
    assert 0x1083 / 0x2000 == 0 && 0x1083 / 0x8000_0000_0000_0000 == 0 && 0x2003 / 0x8000_0000_0000_0000 == 0;
  }

  /** The walker takes the PAT bit of a large page for an address bit. */
  lemma WalkerAddsPatBit(cpu: Processor)
    requires cpu.gigabytePages && cpu.limit > 0x4000_0000
    ensures Translate(PAT, ROOT, 0) == Some(0x1000)
    ensures ArchitectureFrom(cpu, PAT, ROOT, 0, 0) == Some(0)
  {
    TableEntries();
    PageEntries();
    PatNotReserved(cpu);
    hide Present, Big, Target, Reserved, GigabyteBase, Translate, ArchitectureFrom;
    GigabyteAtZero(cpu, PAT, ROOT, 0x2003, 0x1083);
  }

  lemma ClosedBelow(m: Memory, root: int, e: int)
    requires Read(m, root) == e && !User(Read(m, Target(e)))
    ensures !UserPath(m, root, 0, 0)
  {
    ZeroSlots(root);
    ZeroSlots(Target(e));
    hide Slot, Present, Big, Target, User;
    assert !UserPath(m, Target(e), 0, 1);
  }

  lemma WordAfterSweep(m: Memory, m': Memory, root: int, a: int)
    requires Unlocked(m, m', root, 0, 512)
    ensures Target(Read(m', a)) == Target(Read(m, a))
    ensures !Reaches(m, root, 0, 512, a) ==> Read(m', a) == Read(m, a)
  {
    hide Target, Reaches;
    assert UnlockedAt(m, m', root, 0, 512, a);
    UnlockedIsSame(m, m', root, 0, 512);
    SameEntry(Read(m, a), Read(m', a));
  }

  /** The sweep leaves the address behind the bit-7 entry translated and closed to ring 3. */
  lemma SweepMissesBit7(m': Memory)
    requires Unlocked(BIT7, m', ROOT, 0, 512)
    ensures Translate(m', ROOT, 0) == Some(0x5000) && !UserPath(m', ROOT, 0, 0)
  {
    hide Slot, Present, Big, Target, Reaches, Translate, User, SetUser, UserPath, Unlocked;
    Bit7Translates();
    UnlockKeepsTranslations(BIT7, m', ROOT);
    NotReached();
    TableEntries();
    WordAfterSweep(BIT7, m', ROOT, 0x1000);
    WordAfterSweep(BIT7, m', ROOT, 0x2000);
    ClosedBelow(m', ROOT, Read(m', ROOT));
  }

  lemma NotReached()
    ensures !Reaches(BIT7, ROOT, 0, 512, 0x2000)
  {
    TableEntries();
    assert !Present(0);
    hide Target, Present, Big;
    assert forall s | InTable(ROOT, 512, s) :: !Descends(Read(BIT7, s));
  }

  /** The identity map is not installed under a 1 GB page, wherever that page points. */
  lemma IdentityMapSkipped(pdpt: int, pd: int)
    ensures OneGigabyte(SHIFTED, ROOT)
    ensures Translate(Injected(SHIFTED, ROOT, pdpt, pd), ROOT, 0) == Some(0x4000_0000)
  {
    TableEntries();
    PageEntries();
    hide Present, Big, Target, Translate;
    assert Injected(SHIFTED, ROOT, pdpt, pd) == SHIFTED;
    OneGigabyteWalk(SHIFTED, ROOT, 0);
  }
}
