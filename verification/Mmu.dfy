/**
 The three pieces of kernel code that edit live page tables (the single-page
 mapper, the identity map for the AP trampoline, the user-bit sweep) and the
 walker that reads them.
 */
module Mmu {
  import opened Wrappers
  import opened Arithmetic
  import opened PageTables

  // ---------- map_page ----------

  /** The number of the 4 KiB page of `v`; bits above 47 do not take part. */
  function Page(v: int): int { v / 0x1000 % 0x10_0000_0000 }

  // phys_frame | 0b11
  function LeafEntry(frame: int): int { frame - frame % 4 + 3 }

  function Mapped(m: Memory, root: int, v: int, frame: int): Memory {
    if TableAt(m, root, v, 3).Some? then Edit(m, root, v, 3, LeafEntry(frame)) else m
  }

  predicate IsFrame(f: int) { f % 4096 == 0 && 0 <= f < 0x10_0000_0000_0000 }

  lemma LeafEntryFields(frame: int)
    ensures Present(LeafEntry(frame)) && LeafEntry(frame) / 4096 == frame / 4096
  {
    var k, r := frame / 4096, frame % 4096;
    Quotient(frame, 4, 1024 * k + r / 4, r % 4);
    Quotient(LeafEntry(frame), 4096, k, r - r % 4 + 3);
    Quotient(LeafEntry(frame), 2, 2048 * k + 2 * (r / 4) + 1, 1);
  }

  lemma FrameIsTarget(frame: int)
    ensures Target(frame) == frame <==> IsFrame(frame)
  {
    var k := frame / 4096;
    if IsFrame(frame) { Quotient(k, 0x100_0000_0000, 0, k); }
  }

  lemma LeafEntryTarget(frame: int)
    ensures Present(LeafEntry(frame))
    ensures Target(LeafEntry(frame)) == Target(frame)
    ensures Target(frame) == frame <==> IsFrame(frame)
  {
    LeafEntryFields(frame);
    FrameIsTarget(frame);
    hide LeafEntry, Present, IsFrame;
  }

  /** One call changes the translation of its own page and of no other. */
  lemma MapPageTranslation(m: Memory, root: int, v: int, frame: int, w: int)
    requires Unaliased(m, root) && TableAt(m, root, v, 3).Some?
    ensures Translate(Mapped(m, root, v, frame), root, w) ==
            if Page(w) == Page(v) then Some(Target(frame) + w % 4096) else Translate(m, root, w)
  {
    PrefixIsAddress(v, 4);
    PrefixIsAddress(w, 4);
    LeafEntryTarget(frame);
    if Page(w) == Page(v) {
      EditHere(m, root, v, 3, LeafEntry(frame), w);
    } else {
      EditElsewhere(m, root, v, 3, LeafEntry(frame), w);
    }
  }

  /** The page reaches the frame it was given exactly when the frame is 4 KiB-aligned and below 2^52. */
  lemma MapPageExact(m: Memory, root: int, v: int, frame: int)
    requires Unaliased(m, root) && TableAt(m, root, v, 3).Some?
    ensures Translate(Mapped(m, root, v, frame), root, v) == Some(frame + v % 4096) <==> IsFrame(frame)
  {
    hide Translate, Unaliased, TableAt, Mapped, Target, IsFrame, LeafEntry, Page;
    MapPageTranslation(m, root, v, frame, v);
    FrameIsTarget(frame);
  }

  lemma MapPageKeepsTables(m: Memory, root: int, v: int, frame: int, w: int, k: nat)
    requires Unaliased(m, root) && k < 4
    ensures Unaliased(Mapped(m, root, v, frame), root)
    ensures TableAt(Mapped(m, root, v, frame), root, w, k) == TableAt(m, root, w, k)
  {
    hide Index, Target, Present, Big;
    if TableAt(m, root, v, 3).Some? {
      EditKeepsUnaliased(m, root, v, 3, LeafEntry(frame));
      EditKeepsTables(m, root, v, 3, LeafEntry(frame), w, k);
    }
  }

  datatype Request = Request(virt: int, frame: int)

  function MapAll(m: Memory, root: int, rs: seq<Request>): Memory {
    if rs == [] then m
    else Mapped(MapAll(m, root, rs[..|rs| - 1]), root, rs[|rs| - 1].virt, rs[|rs| - 1].frame)
  }

  /** The abstract state of a run: which frame each page was last given. A request without a page table is dropped. */
  function PageMap(m: Memory, root: int, rs: seq<Request>): map<int, int> {
    if rs == [] then map[]
    else
      var before, r := PageMap(m, root, rs[..|rs| - 1]), rs[|rs| - 1];
      if TableAt(m, root, r.virt, 3).Some? then before[Page(r.virt) := r.frame] else before
  }

  ghost predicate AllFrames(rs: seq<Request>) { forall r | r in rs :: IsFrame(r.frame) }

  lemma {:induction false} RunKeepsTables(m: Memory, root: int, rs: seq<Request>, w: int, k: nat)
    requires Unaliased(m, root) && k < 4
    ensures Unaliased(MapAll(m, root, rs), root)
    ensures TableAt(MapAll(m, root, rs), root, w, k) == TableAt(m, root, w, k)
  {
    hide Index, Target, Present, Big;
    if rs != [] {
      var before, r := rs[..|rs| - 1], rs[|rs| - 1];
      RunKeepsTables(m, root, before, w, k);
      MapPageKeepsTables(MapAll(m, root, before), root, r.virt, r.frame, w, k);
    }
  }

  /** Any sequence of calls refines updates of a page-to-frame map. */
  lemma {:induction false} MapPageRefinesPageMap(m: Memory, root: int, rs: seq<Request>, w: int)
    requires Unaliased(m, root) && AllFrames(rs)
    ensures var pages := PageMap(m, root, rs);
            Translate(MapAll(m, root, rs), root, w) ==
            if Page(w) in pages then Some(pages[Page(w)] + w % 4096) else Translate(m, root, w)
  {
    hide Target, TableAt, Unaliased, IsFrame;
    if rs != [] {
      var before, r := rs[..|rs| - 1], rs[|rs| - 1];
      MapPageRefinesPageMap(m, root, before, w);
      RunKeepsTables(m, root, before, r.virt, 3);
      if TableAt(m, root, r.virt, 3).Some? {
        assert IsFrame(r.frame);
        LeafEntryTarget(r.frame);
        MapPageTranslation(MapAll(m, root, before), root, r.virt, r.frame, w);
      }
    }
  }

  // ---------- the identity map of copy_trampoline ----------

  /** PML4[0], installing the static PDPT when it is missing. */
  function WithPdpt(m: Memory, root: int, pdpt: int): Memory {
    if Present(Read(m, root)) then m else m[root := LeafEntry(pdpt)]
  }

  function WithPd(m: Memory, root: int, pd: int): Memory {
    var table := Target(Read(m, root));
    if Present(Read(m, table)) then m else m[table := LeafEntry(pd)]
  }

  function WithLargePage(m: Memory, root: int): Memory {
    var pdpte := Read(m, Target(Read(m, root)));
    if Big(pdpte) then m else m[Target(pdpte) := 0x83]
  }

  function Injected(m: Memory, root: int, pdpt: int, pd: int): Memory {
    WithLargePage(WithPd(WithPdpt(m, root, pdpt), root, pd), root)
  }

  /** PDPT[0] exists and maps a 1 GB page. */
  predicate OneGigabyte(m: Memory, root: int) {
    var e := Read(m, Target(Read(m, root)));
    Present(Read(m, root)) && Present(e) && Big(e)
  }

  /** The two static tables: distinct empty pages below 2^52 that nothing refers to. */
  ghost predicate StaticTables(m: Memory, root: int, pdpt: int, pd: int) {
    IsFrame(pdpt) && IsFrame(pd) && pdpt != pd && Unused(m, root, pdpt) && Unused(m, root, pd)
  }

  lemma TableEntry(frame: int)
    requires IsFrame(frame)
    ensures Present(LeafEntry(frame)) && !Big(LeafEntry(frame)) && Target(LeafEntry(frame)) == frame
  {
    LeafEntryTarget(frame);
    var k := frame / 4096;
    Quotient(frame, 4, 1024 * k, 0);
    Quotient(frame + 3, 128, 32 * k, 3);
    Quotient(32 * k, 2, 16 * k, 0);
  }

  /** Hanging an empty table under a missing entry changes no translation. */
  lemma InstallEmpty(m: Memory, root: int, v: int, level: nat, table: int, w: int)
    requires Unaliased(m, root) && level < 3 && TableAt(m, root, v, level).Some?
    requires !Present(Read(m, Slot(TableAt(m, root, v, level).value, v, level)))
    requires IsFrame(table) && Unused(m, root, table)
    ensures var m' := Edit(m, root, v, level, LeafEntry(table));
            Unaliased(m', root) && Translate(m', root, w) == Translate(m, root, w)
  {
    hide Index, Target, Present, Big;
    var e := LeafEntry(table);
    TableEntry(table);
    EditKeepsUnaliased(m, root, v, level, e);
    if Prefix(w, level + 1) != Prefix(v, level + 1) {
      EditElsewhere(m, root, v, level, e, w);
    } else {
      var t := TableAt(m, root, v, level).value;
      EditHere(m, root, v, level, e, w);
      TableAligned(m, root, v, level);
      OutsideUnused(m, root, table, t, Index(w, level + 1), Index(v, level), e);
      SamePrefix(m, root, v, w, level);
      WalkThrough(m, root, w, level);
    }
  }

  lemma InstallKeepsUnused(m: Memory, root: int, v: int, level: nat, table: int, other: int)
    requires Unaliased(m, root) && level < 3 && TableAt(m, root, v, level).Some?
    requires IsFrame(table) && Unused(m, root, table) && Unused(m, root, other) && other != table
    ensures Unused(Edit(m, root, v, level, LeafEntry(table)), root, other)
  {
    hide Index, Target, Present, Big;
    var e := LeafEntry(table);
    var m' := Edit(m, root, v, level, e);
    TableEntry(table);
    forall w, k: nat | k < 4
      ensures TableAt(m', root, w, k) != Some(other)
    {
      TablesAfterEdit(m, root, v, level, e, w, k);
    }
    var t := TableAt(m, root, v, level).value;
    TableAligned(m, root, v, level);
    forall a | other <= a < other + 4096
      ensures !Present(Read(m', a))
    {
      assert !Present(Read(m, a));
      assert t != other;
      PagesApart(t, other, 8 * Index(v, level), a);
    }
  }

  lemma PagesApart(t: int, u: int, offset: int, a: int)
    requires Aligned(t) && Aligned(u) && t != u && 0 <= offset < 4096 && u <= a < u + 4096
    ensures t + offset != a
  {}

  lemma ZeroAddress(level: nat)
    requires level <= 4
    ensures level < 4 ==> Index(0, level) == 0
    ensures Prefix(0, level) == 0
  {}

  /** Present(e) as the kernel reads it is what TableAt follows. */
  lemma NextTable(m: Memory, root: int, level: nat, t: int)
    requires level < 3 && TableAt(m, root, 0, level) == Some(t)
    requires Present(Read(m, t)) && !BigPage(Read(m, t), level)
    ensures TableAt(m, root, 0, level + 1) == Some(Target(Read(m, t)))
  {
    ZeroAddress(level);
  }

  lemma InstallAtZero(m: Memory, root: int, level: nat, t: int, table: int, w: int)
    requires Unaliased(m, root) && level < 3 && TableAt(m, root, 0, level) == Some(t) && !Present(Read(m, t))
    requires IsFrame(table) && Unused(m, root, table)
    ensures var m' := m[t := LeafEntry(table)];
            && Unaliased(m', root) && Translate(m', root, w) == Translate(m, root, w)
            && TableAt(m', root, 0, level) == Some(t)
            && TableAt(m', root, 0, level + 1) == Some(table)
            && forall other | Unused(m, root, other) && other != table :: Unused(m', root, other)
  {
    hide Index, Target, Present, Big;
    ZeroAddress(level);
    TableEntry(table);
    InstallEmpty(m, root, 0, level, table, w);
    EditKeepsTables(m, root, 0, level, LeafEntry(table), 0, level);
    NextTable(m[t := LeafEntry(table)], root, level, t);
    forall other | Unused(m, root, other) && other != table
      ensures Unused(m[t := LeafEntry(table)], root, other)
    {
      InstallKeepsUnused(m, root, 0, level, table, other);
    }
  }

  lemma PdptInPlace(m: Memory, root: int, pdpt: int, pd: int, w: int)
    requires Unaliased(m, root) && StaticTables(m, root, pdpt, pd)
    ensures var m1 := WithPdpt(m, root, pdpt);
            && Unaliased(m1, root) && Translate(m1, root, w) == Translate(m, root, w)
            && Unused(m1, root, pd)
            && TableAt(m1, root, 0, 1) == Some(Target(Read(m1, root)))
  {
    hide Index, Target, Present, Big;
    if Present(Read(m, root)) {
      NextTable(m, root, 0, root);
    } else {
      TableEntry(pdpt);
      InstallAtZero(m, root, 0, root, pdpt, w);
    }
  }

  lemma PdInPlace(m: Memory, root: int, t: int, pd: int, w: int)
    requires Unaliased(m, root) && IsFrame(pd) && Unused(m, root, pd)
    requires TableAt(m, root, 0, 1) == Some(t) && t == Target(Read(m, root))
    ensures var m2 := WithPd(m, root, pd);
            && Unaliased(m2, root) && Translate(m2, root, w) == Translate(m, root, w)
            && Read(m2, root) == Read(m, root)
            && Read(m2, t) == (if Present(Read(m, t)) then Read(m, t) else LeafEntry(pd))
            && TableAt(m2, root, 0, 1) == Some(t)
  {
    hide Index, Target, Present, Big;
    if !Present(Read(m, t)) {
      InstallAtZero(m, root, 1, t, pd, w);
      RootApart(m, root, 0, 1);
    }
  }

  /** A 2 MB page in place of an entry of a page directory. */
  lemma LargePageEdit(m: Memory, root: int, v: int, level: nat, e: int, w: int)
    requires Unaliased(m, root) && level == 2 && TableAt(m, root, v, level).Some? && Present(e) && BigPage(e, level)
    ensures var m' := Edit(m, root, v, level, e);
            && Unaliased(m', root)
            && Translate(m', root, w) ==
               if Prefix(w, level + 1) == Prefix(v, level + 1) then Some(Target(e) + w % 0x20_0000) else Translate(m, root, w)
  {
    hide Index, Target, Present, Big, TableAt, Prefix;
    EditKeepsUnaliased(m, root, v, level, e);
    if Prefix(w, level + 1) == Prefix(v, level + 1) {
      EditHere(m, root, v, level, e, w);
    } else {
      EditElsewhere(m, root, v, level, e, w);
    }
  }

  // 0x83 = present, writable, large page, base 0
  lemma LargePageEntry()
    ensures Present(0x83) && Big(0x83) && Target(0x83) == 0
  {}

  lemma LargePageAtZero(m: Memory, root: int, t: int, w: int)
    requires Unaliased(m, root) && TableAt(m, root, 0, 2) == Some(t)
    ensures var m' := m[t := 0x83];
            && Unaliased(m', root)
            && Translate(m', root, w) == if Prefix(w, 3) == 0 then Some(w % 0x20_0000) else Translate(m, root, w)
  {
    hide Index, Target, Present, Big, TableAt, Prefix, Unaliased, Translate;
    LargePageEntry();
    ZeroAddress(2);
    ZeroAddress(3);
    LargePageEdit(m, root, 0, 2, 0x83, w);
  }

  lemma PdpteIsTable(m: Memory, root: int, pdpt: int, pd: int)
    requires Unaliased(m, root) && StaticTables(m, root, pdpt, pd) && !OneGigabyte(m, root)
    ensures var m1 := WithPdpt(m, root, pdpt);
            var e := Read(m1, Target(Read(m1, root)));
            Present(e) ==> !Big(e)
  {
    TableEntry(pdpt);
    if !Present(Read(m, root)) {
      assert TableAt(m, root, 0, 0) != Some(pdpt);
      assert !Present(Read(m, pdpt));
    }
  }

  lemma BelowTwoMegabytes(w: int)
    ensures Prefix(w, 3) == 0 <==> w % 0x1_0000_0000_0000 < 0x20_0000
  {
    PrefixIsAddress(w, 3);
    ModSplit(w, 0x20_0000, 0x800_0000);
  }

  /**
   Unless PDPT[0] is a 1 GB page, addresses below 2 MB become identity-mapped and
   every other address keeps its translation, or its absence of one.
   */
  lemma TrampolineIdentityMap(m: Memory, root: int, pdpt: int, pd: int, w: int)
    requires Unaliased(m, root) && StaticTables(m, root, pdpt, pd) && !OneGigabyte(m, root)
    ensures var m' := Injected(m, root, pdpt, pd);
            && Unaliased(m', root)
            && Translate(m', root, w) ==
               if w % 0x1_0000_0000_0000 < 0x20_0000 then Some(w % 0x20_0000) else Translate(m, root, w)
  {
    var m1 := WithPdpt(m, root, pdpt);
    var t := Target(Read(m1, root));
    var m2 := WithPd(m1, root, pd);
    PdptInPlace(m, root, pdpt, pd, w);
    PdInPlace(m1, root, t, pd, w);
    TableEntry(pd);
    PdpteIsTable(m, root, pdpt, pd);
    NextTable(m2, root, 1, t);
    LargePageAtZero(m2, root, Target(Read(m2, t)), w);
    BelowTwoMegabytes(w);
  }

  lemma LowAddress(w: int)
    requires 0 <= w < 0x20_0000
    ensures w % 0x1_0000_0000_0000 == w && w % 0x4000_0000 == w && w % 0x20_0000 == w
    ensures Index(w, 0) == 0 && Index(w, 1) == 0
  {}

  lemma OneGigabyteWalk(m: Memory, root: int, w: int)
    requires OneGigabyte(m, root) && 0 <= w < 0x20_0000
    ensures Translate(m, root, w) == Some(Target(Read(m, Target(Read(m, root)))) + w)
  {
    LowAddress(w);
    var t := Target(Read(m, root));
    assert Slot(root, w, 0) == root && Slot(t, w, 1) == t;
    assert Translate(m, root, w) == WalkFrom(m, t, w, 1);
  }

  ghost predicate LowIdentity(m: Memory, root: int) {
    forall w | 0 <= w < 0x20_0000 :: Translate(m, root, w) == Some(w)
  }

  lemma TrampolineLow(m: Memory, root: int, pdpt: int, pd: int, w: int)
    requires Unaliased(m, root) && StaticTables(m, root, pdpt, pd) && !OneGigabyte(m, root) && 0 <= w < 0x20_0000
    ensures Translate(Injected(m, root, pdpt, pd), root, w) == Some(w)
  {
    LowAddress(w);
    TrampolineIdentityMap(m, root, pdpt, pd, w);
  }

  /** Exactly when the first 2 MB end up identity-mapped: a 1 GB page already there must start at 0. */
  lemma TrampolineExact(m: Memory, root: int, pdpt: int, pd: int)
    requires Unaliased(m, root) && StaticTables(m, root, pdpt, pd)
    ensures LowIdentity(Injected(m, root, pdpt, pd), root)
            <==> (OneGigabyte(m, root) ==> Target(Read(m, Target(Read(m, root)))) == 0)
  {
    var m' := Injected(m, root, pdpt, pd);
    if OneGigabyte(m, root) {
      var base := Target(Read(m, Target(Read(m, root))));
      OneGigabyteWalk(m, root, 0);
      if base == 0 {
        forall w | 0 <= w < 0x20_0000 { OneGigabyteWalk(m, root, w); }
      }
    } else {
      forall w | 0 <= w < 0x20_0000 { TrampolineLow(m, root, pdpt, pd, w); }
    }
  }

  // ---------- unlock_mmu_for_ring3 ----------

  /** What one iteration of the loop over a table does to the word at `a`, up to the sweep of the table below. */
  lemma SweepWord(m0: Memory, m: Memory, table: int, level: nat, i: int, a: int)
    requires level < 4 && 0 <= i
    requires UnlockedAt(m0, m, table, level, i, a) && SetUser(Read(m, table + 8 * i)) == SetUser(Read(m0, table + 8 * i))
    ensures var s := table + 8 * i;
            var e := Read(m, s);
            && (!Present(e) ==> UnlockedAt(m0, m, table, level, i + 1, a))
            && (Present(e) && (level == 3 || Big(e)) ==> UnlockedAt(m0, m[s := SetUser(e)], table, level, i + 1, a))
  {
    hide Index, Target, Present, Big, User, SetUser;
    var s := table + 8 * i;
    SameEntry(Read(m0, s), Read(m, s));
    ReachesNext(m0, table, level, i, a);
    SetUserTwice(Read(m0, a));
  }

  lemma SweepKeepsWords(m0: Memory, m: Memory, table: int, level: nat, i: int)
    requires level < 4 && 0 <= i && Unlocked(m0, m, table, level, i)
    ensures var s := table + 8 * i;
            && SameButUser(m0, m)
            && (Present(Read(m, s)) ==> SameButUser(m0, m[s := SetUser(Read(m, s))]))
  {
    hide Index, Target, Present, Big;
    UnlockedIsSame(m0, m, table, level, i);
    var s := table + 8 * i;
    SetUserTwice(Read(m, s));
  }

  /** One iteration that does not enter a table below. */
  lemma SweepEntry(m0: Memory, m: Memory, table: int, level: nat, i: int, next: int)
    requires level < 4 && 0 <= i && next == i + 1 && Unlocked(m0, m, table, level, i)
    ensures var s := table + 8 * i;
            var e := Read(m, s);
            && (!Present(e) ==> Unlocked(m0, m, table, level, next))
            && (Present(e) && (level == 3 || Big(e)) ==> Unlocked(m0, m[s := SetUser(e)], table, level, next))
  {
    hide Index, Target, Present, Big, User, SetUser;
    SweepKeepsWords(m0, m, table, level, i);
    var s := table + 8 * i;
    var e := Read(m, s);
    var m1 := if Present(e) then m[s := SetUser(e)] else m;
    if !Descends(e) || level == 3 {
      forall a
        ensures UnlockedAt(m0, m1, table, level, next, a)
      {
        assert UnlockedAt(m0, m, table, level, i, a);
        SweepWord(m0, m, table, level, i, a);
      }
    }
  }

  lemma SweepSubtableWord(m0: Memory, m: Memory, m2: Memory, table: int, level: nat, i: int, a: int)
    requires level < 3 && 0 <= i && UnlockedAt(m0, m, table, level, i, a)
    requires var s := table + 8 * i;
             var e := Read(m, s);
             var m1 := m[s := SetUser(e)];
             && Descends(e) && SetUser(e) == SetUser(Read(m0, s)) && SameButUser(m0, m1)
             && UnlockedAt(m1, m2, Target(e), level + 1, 512, a)
    ensures UnlockedAt(m0, m2, table, level, i + 1, a)
  {
    hide Index, Target, Present, Big, User, SetUser;
    var s := table + 8 * i;
    var e := Read(m, s);
    SameEntry(Read(m0, s), e);
    ReachesNext(m0, table, level, i, a);
    ReachesIgnoresUserBit(m0, m[s := SetUser(e)], Target(e), level + 1, 512, a);
    SetUserTwice(Read(m0, a));
  }

  /** One iteration that also sweeps the table below, which may be any table, this one included. */
  lemma SweepSubtable(m0: Memory, m: Memory, m2: Memory, table: int, level: nat, i: int, next: int)
    requires level < 3 && 0 <= i && next == i + 1 && Unlocked(m0, m, table, level, i)
    requires Descends(Read(m, table + 8 * i))
    requires var e := Read(m, table + 8 * i);
             Unlocked(m[table + 8 * i := SetUser(e)], m2, Target(e), level + 1, 512)
    ensures Unlocked(m0, m2, table, level, next)
  {
    hide Index, Target, Present, Big, User, SetUser;
    SweepKeepsWords(m0, m, table, level, i);
    forall a
      ensures UnlockedAt(m0, m2, table, level, next, a)
    {
      var e := Read(m, table + 8 * i);
      assert UnlockedAt(m[table + 8 * i := SetUser(e)], m2, Target(e), level + 1, 512, a);
      SweepSubtableWord(m0, m, m2, table, level, i, a);
    }
  }

  /** For every shape of tables, shared and recursive ones included, the sweep changes no translation. */
  lemma UnlockKeepsTranslations(m: Memory, m': Memory, root: int)
    requires Unlocked(m, m', root, 0, 512)
    ensures forall v :: Translate(m', root, v) == Translate(m, root, v)
    ensures Unaliased(m, root) ==> Unaliased(m', root)
  {
    hide Index, Target, Present, Big;
    UnlockedIsSame(m, m', root, 0, 512);
    forall v
      ensures Translate(m', root, v) == Translate(m, root, v)
    {
      WalkIgnoresUserBit(m, m', root, v, 0);
    }
    if Unaliased(m, root) {
      forall v, w, i: nat, j: nat | i < 4 && j < 4 && Meet(m', root, v, i, w, j)
        ensures i == j && Prefix(v, i) == Prefix(w, j)
      {
        TablesIgnoreUserBit(m, m', root, v, i);
        TablesIgnoreUserBit(m, m', root, w, j);
        assert Meet(m, root, v, i, w, j);
      }
    }
  }

  /** After the sweep, ring 3 passes every level of every walk that goes through a proper PML4 entry. */
  lemma UnlockOpensEveryWalk(m: Memory, m': Memory, root: int, v: int)
    requires Unlocked(m, m', root, 0, 512)
    requires Translate(m, root, v).Some? && !Big(Read(m, Slot(root, v, 0)))
    ensures UserPath(m', root, v, 0)
  {
    UnlockedIsSame(m, m', root, 0, 512);
    forall a | Reaches(m, root, 0, 512, a)
      ensures User(Read(m', a))
    {
      assert UnlockedAt(m, m', root, 0, 512, a);
      SetUserTwice(Read(m, a));
    }
    SweepOpensPath(m, m', root, v, 0);
  }

  /** Below a PML4 entry with bit 7 set the sweep opens nothing: what is open there was open before. */
  lemma {:induction false} Bit7KeepsPath(m: Memory, m': Memory, root: int, v: int, level: nat)
    requires Unlocked(m, m', root, 0, 512) && Unaliased(m, root)
    requires Big(Read(m, Slot(root, v, 0))) && 1 <= level < 4 && TableAt(m, root, v, level).Some?
    ensures var t := TableAt(m, root, v, level).value;
            UserPath(m', t, v, level) == UserPath(m, t, v, level)
    decreases 4 - level
  {
    hide Index, Target, Present, Big;
    SweepStopsAtBit7(m, root, v, level);
    assert UnlockedAt(m, m', root, 0, 512, Slot(TableAt(m, root, v, level).value, v, level));
    if level < 3 && TableAt(m, root, v, level + 1).Some? { Bit7KeepsPath(m, m', root, v, level + 1); }
  }

  /** Exactly which translating addresses of unaliased tables ring 3 can use after the sweep. */
  lemma UnlockExact(m: Memory, m': Memory, root: int, v: int)
    requires Unlocked(m, m', root, 0, 512) && Unaliased(m, root) && Translate(m, root, v).Some?
    ensures var e := Read(m, Slot(root, v, 0));
            UserPath(m', root, v, 0) <==> !Big(e) || UserPath(m, Target(e), v, 1)
  {
    hide Index, Target, Present, Big;
    var s := Slot(root, v, 0);
    var e := Read(m, s);
    if !Big(e) {
      UnlockOpensEveryWalk(m, m', root, v);
    } else {
      SlotInTable(root, v, 0);
      assert Reaches(m, root, 0, 512, s) && UnlockedAt(m, m', root, 0, 512, s);
      UnlockedIsSame(m, m', root, 0, 512);
      SetUserTwice(e);
      SameEntry(e, Read(m', s));
      assert TableAt(m, root, v, 1) == Some(Target(e));
      Bit7KeepsPath(m, m', root, v, 1);
    }
  }

  /** A second sweep changes no word. */
  lemma UnlockIdempotent(m: Memory, m': Memory, m'': Memory, root: int, a: int)
    requires Unlocked(m, m', root, 0, 512) && Unlocked(m', m'', root, 0, 512)
    ensures Read(m'', a) == Read(m', a)
  {
    hide Index, Target, Present, Big;
    UnlockedIsSame(m, m', root, 0, 512);
    ReachesIgnoresUserBit(m, m', root, 0, 512, a);
    assert UnlockedAt(m, m', root, 0, 512, a) && UnlockedAt(m', m'', root, 0, 512, a);
    SetUserTwice(Read(m, a));
  }

  // ---------- the kernel's own code ----------

  /** Physical memory and the table that CR3 points to. */
  class Mmu {
    const root: int
    var mem: Memory

    constructor (root: int, mem: Memory)
      ensures this.root == root && this.mem == mem
    {
      this.root := root;
      this.mem := mem;
    }

    method WalkPageTable(virt: int) returns (r: Option<int>)
      ensures r == Translate(mem, root, virt)
    {
      var table := root;
      for level := 0 to 4
        invariant Translate(mem, root, virt) == WalkFrom(mem, table, virt, level)
      {
        var entry := Read(mem, table + 8 * Index(virt, level));
        if !Present(entry) { return None; }
        table := Target(entry);
        if (level == 1 || level == 2) && Big(entry) {
          return Some(table + if level == 1 then virt % 0x4000_0000 else virt % 0x20_0000);
        }
      }
      return Some(table + virt % 4096);
    }

    method MapPage(virt: int, frame: int)
      modifies this
      ensures mem == Mapped(old(mem), root, virt, frame)
    {
      var pml4e := Read(mem, root + 8 * Index(virt, 0));
      if !Present(pml4e) { CutOff(mem, root, virt, 1); return; }
      var pdpt := Target(pml4e);
      assert TableAt(mem, root, virt, 1) == Some(pdpt);
      var pdpte := Read(mem, pdpt + 8 * Index(virt, 1));
      if !Present(pdpte) || Big(pdpte) { CutOff(mem, root, virt, 2); return; }
      var pd := Target(pdpte);
      assert TableAt(mem, root, virt, 2) == Some(pd);
      var pde := Read(mem, pd + 8 * Index(virt, 2));
      if !Present(pde) || Big(pde) { CutOff(mem, root, virt, 3); return; }
      var pt := Target(pde);
      assert TableAt(mem, root, virt, 3) == Some(pt);
      mem := mem[pt + 8 * Index(virt, 3) := LeafEntry(frame)];
    }

    method InjectIdentityMap(smpPdpt: int, smpPd: int)
      modifies this
      ensures mem == Injected(old(mem), root, smpPdpt, smpPd)
    {
      LeafEntryTarget(smpPdpt);
      hide Target, Present, Big, LeafEntry;
      var pml4e := Read(mem, root);
      if !Present(pml4e) {
        mem := mem[root := LeafEntry(smpPdpt)];
        pml4e := Read(mem, root);
      }
      var pdpt := Target(pml4e);
      var pdpte := Read(mem, pdpt);
      if !Present(pdpte) {
        mem := mem[pdpt := LeafEntry(smpPd)];
        pdpte := Read(mem, pdpt);
      }
      if !Big(pdpte) {
        mem := mem[Target(pdpte) := 0x83];
      }
    }

    /** The loop over one table; each of the four nested loops is this one at its own level. */
    method UnlockTable(table: int, level: nat)
      requires level < 4
      modifies this
      ensures Unlocked(old(mem), mem, table, level, 512)
      decreases 4 - level
    {
      for i := 0 to 512
        invariant Unlocked(old(mem), mem, table, level, i)
      {
        ghost var before := mem;
        var slot := table + 8 * i;
        var entry := Read(mem, slot);
        SweepEntry(old(mem), mem, table, level, i, i + 1);
        if Present(entry) {
          mem := mem[slot := SetUser(entry)];
          if level < 3 && !Big(entry) {
            UnlockTable(Target(entry), level + 1);
            SweepSubtable(old(mem), before, mem, table, level, i, i + 1);
          }
        }
      }
    }

    /** Every translation survives, and every address under a proper PML4 entry becomes usable from ring 3. */
    method UnlockForRing3()
      modifies this
      ensures Unlocked(old(mem), mem, root, 0, 512)
      ensures forall v :: Translate(mem, root, v) == old(Translate(mem, root, v))
      ensures forall v | Translate(mem, root, v).Some? && !Big(old(Read(mem, Slot(root, v, 0)))) :: UserPath(mem, root, v, 0)
    {
      UnlockTable(root, 0);
      UnlockKeepsTranslations(old(mem), mem, root);
      forall v | Translate(mem, root, v).Some? && !Big(old(Read(mem, Slot(root, v, 0))))
        ensures UserPath(mem, root, v, 0)
      {
        UnlockOpensEveryWalk(old(mem), mem, root, v);
      }
    }
  }
}
