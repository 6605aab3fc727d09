/**
 Whole runs of the three editors. Every sequence of map_page calls, identity-map
 injections and user-bit sweeps over unaliased tables acts on translations as a
 simple abstract machine does.
 */
module PagingRuns {
  import opened Wrappers
  import opened PageTables
  import opened Mmu

  /** What each address translates to, and which addresses have a last-level table. */
  datatype View = View(to: int -> Option<int>, mappable: int -> bool)

  datatype Op = MapPage(virt: int, frame: int) | Inject(pdpt: int, pd: int) | Unlock

  predicate Low(w: int) { w % 0x1_0000_0000_0000 < 0x20_0000 }

  function Next(v: View, op: Op): View {
    match op
    case MapPage(virt, frame) =>
      if v.mappable(virt)
      then v.(to := w => if Page(w) == Page(virt) then Some(frame + w % 4096) else v.to(w))
      else v
    case Inject(_, _) =>
      View(w => if Low(w) then Some(w % 0x20_0000) else v.to(w), w => !Low(w) && v.mappable(w))
    case Unlock => v
  }

  function After(v: View, ops: seq<Op>): View {
    if ops == [] then v else Next(After(v, ops[..|ops| - 1]), ops[|ops| - 1])
  }

  /** One call of the kernel's code, from memory `m` to memory `m'`. */
  ghost predicate Step(root: int, m: Memory, op: Op, m': Memory) {
    match op
    case MapPage(virt, frame) => IsFrame(frame) && m' == Mapped(m, root, virt, frame)
    case Inject(pdpt, pd) => StaticTables(m, root, pdpt, pd) && !OneGigabyte(m, root) && m' == Injected(m, root, pdpt, pd)
    case Unlock => Unlocked(m, m', root, 0, 512)
  }

  ghost predicate IsRun(root: int, ms: seq<Memory>, ops: seq<Op>) {
    |ms| == |ops| + 1 && forall i | 0 <= i < |ops| :: Step(root, ms[i], ops[i], ms[i + 1])
  }

  ghost predicate Refines(root: int, m: Memory, v: View) {
    && Unaliased(m, root)
    && forall w :: Agrees(root, m, v, w)
  }

  ghost predicate Agrees(root: int, m: Memory, v: View, w: int) {
    v.to(w) == Translate(m, root, w) && v.mappable(w) == TableAt(m, root, w, 3).Some?
  }

  // ---------- where last-level tables are after an injection ----------

  lemma InstallKeepsLeafTables(m: Memory, root: int, level: nat, t: int, table: int, w: int)
    requires Unaliased(m, root) && level < 2 && TableAt(m, root, 0, level) == Some(t) && !Present(Read(m, t))
    requires IsFrame(table) && Unused(m, root, table)
    ensures TableAt(m[t := LeafEntry(table)], root, w, 3) == TableAt(m, root, w, 3)
  {
    hide Index, Target, Present, Big, LeafEntry;
    ZeroAddress(level);
    TableEntry(table);
    var e := LeafEntry(table);
    if Prefix(w, level + 1) != Prefix(0, level + 1) {
      EditKeepsTables(m, root, 0, level, e, w, 3);
    } else {
      EditBelow(m, root, 0, level, e, w, 3);
      SamePrefix(m, root, 0, w, level);
      MissingCutsOff(m, root, w, level, t);
    }
  }

  lemma MissingCutsOff(m: Memory, root: int, w: int, level: nat, t: int)
    requires level < 3 && TableAt(m, root, w, level) == Some(t) && !Present(Read(m, Slot(t, w, level)))
    ensures TableAt(m, root, w, 3).None?
  {
    CutOff(m, root, w, level + 1);
  }

  lemma InjectTables(m: Memory, root: int, pdpt: int, pd: int, w: int)
    requires Unaliased(m, root) && StaticTables(m, root, pdpt, pd) && !OneGigabyte(m, root)
    ensures TableAt(Injected(m, root, pdpt, pd), root, w, 3) == if Prefix(w, 3) == 0 then None else TableAt(m, root, w, 3)
  {
    var m1 := WithPdpt(m, root, pdpt);
    PdptInPlace(m, root, pdpt, pd, w);
    if !Present(Read(m, root)) { InstallKeepsLeafTables(m, root, 0, root, pdpt, w); }
    var t := Target(Read(m1, root));
    var m2 := WithPd(m1, root, pd);
    PdInPlace(m1, root, t, pd, w);
    if !Present(Read(m1, t)) { InstallKeepsLeafTables(m1, root, 1, t, pd, w); }
    TableEntry(pd);
    PdpteIsTable(m, root, pdpt, pd);
    NextTable(m2, root, 1, t);
    LargePageTables(m2, root, Target(Read(m2, t)), w);
  }

  lemma LargePageCutsOff(m: Memory, root: int, v: int, level: nat, e: int, w: int, k: nat)
    requires Unaliased(m, root) && level == 2 && k == 3 && TableAt(m, root, v, level).Some? && Present(e) && BigPage(e, level)
    ensures TableAt(Edit(m, root, v, level, e), root, w, k) ==
            if Prefix(w, level + 1) == Prefix(v, level + 1) then None else TableAt(m, root, w, k)
  {
    hide Index, Target, Present, Big, TableAt, Prefix;
    if Prefix(w, level + 1) == Prefix(v, level + 1) {
      EditBelow(m, root, v, level, e, w, k);
    } else {
      EditKeepsTables(m, root, v, level, e, w, k);
    }
  }

  lemma LargePageTables(m: Memory, root: int, t: int, w: int)
    requires Unaliased(m, root) && TableAt(m, root, 0, 2) == Some(t)
    ensures TableAt(m[t := 0x83], root, w, 3) == if Prefix(w, 3) == 0 then None else TableAt(m, root, w, 3)
  {
    hide Index, Target, Present, Big, TableAt, Prefix, Unaliased;
    LargePageEntry();
    ZeroAddress(2);
    ZeroAddress(3);
    LargePageCutsOff(m, root, 0, 2, 0x83, w, 3);
  }

  // ---------- the simulation ----------

  lemma MapPageSimulates(root: int, m: Memory, v: View, virt: int, frame: int)
    requires Refines(root, m, v) && IsFrame(frame)
    ensures Refines(root, Mapped(m, root, virt, frame), Next(v, MapPage(virt, frame)))
  {
    var m', v' := Mapped(m, root, virt, frame), Next(v, MapPage(virt, frame));
    hide Translate, TableAt, Page, Target, Unaliased, Mapped;
    assert Agrees(root, m, v, virt);
    LeafEntryTarget(frame);
    MapPageKeepsTables(m, root, virt, frame, virt, 3);
    MapPageAborts(m, root, virt, frame);
    forall w
      ensures Agrees(root, m', v', w)
    {
      assert Agrees(root, m, v, w);
      MapPageKeepsTables(m, root, virt, frame, w, 3);
      if TableAt(m, root, virt, 3).Some? { MapPageTranslation(m, root, virt, frame, w); }
    }
  }

  lemma MapPageAborts(m: Memory, root: int, virt: int, frame: int)
    ensures TableAt(m, root, virt, 3).None? ==> Mapped(m, root, virt, frame) == m
  {}

  lemma InjectSimulates(root: int, m: Memory, v: View, pdpt: int, pd: int)
    requires Refines(root, m, v) && StaticTables(m, root, pdpt, pd) && !OneGigabyte(m, root)
    ensures Refines(root, Injected(m, root, pdpt, pd), Next(v, Inject(pdpt, pd)))
  {
    hide Translate, TableAt, Unaliased, StaticTables, OneGigabyte, Injected;
    TrampolineIdentityMap(m, root, pdpt, pd, 0);
    var m', v' := Injected(m, root, pdpt, pd), Next(v, Inject(pdpt, pd));
    forall w
      ensures Agrees(root, m', v', w)
    {
      assert Agrees(root, m, v, w);
      TrampolineIdentityMap(m, root, pdpt, pd, w);
      InjectTables(m, root, pdpt, pd, w);
      BelowTwoMegabytes(w);
    }
  }

  lemma UnlockSimulates(root: int, m: Memory, m': Memory, v: View)
    requires Refines(root, m, v) && Unlocked(m, m', root, 0, 512)
    ensures Refines(root, m', v)
  {
    UnlockKeepsTranslations(m, m', root);
    UnlockedIsSame(m, m', root, 0, 512);
    forall w
      ensures Agrees(root, m', v, w)
    {
      assert Agrees(root, m, v, w);
      TablesIgnoreUserBit(m, m', root, w, 3);
    }
  }

  lemma StepSimulates(root: int, m: Memory, op: Op, m': Memory, v: View)
    requires Refines(root, m, v) && Step(root, m, op, m')
    ensures Refines(root, m', Next(v, op))
  {
    hide Refines, Next;
    match op
    case MapPage(virt, frame) => MapPageSimulates(root, m, v, virt, frame);
    case Inject(pdpt, pd) => InjectSimulates(root, m, v, pdpt, pd);
    case Unlock => UnlockSimulates(root, m, m', v); UnlockChangesNothing(v);
  }

  lemma UnlockChangesNothing(v: View)
    ensures Next(v, Unlock) == v
  {}

  /** After any run, every address translates as the abstract machine says, and the tables are still unaliased. */
  lemma {:induction false} RunSimulates(root: int, ms: seq<Memory>, ops: seq<Op>, v: View)
    requires IsRun(root, ms, ops) && Refines(root, ms[0], v)
    ensures Refines(root, ms[|ops|], After(v, ops))
  {
    if ops != [] {
      hide Step, Refines, Next;
      var last := |ops| - 1;
      assert IsRun(root, ms[..last + 1], ops[..last]);
      RunSimulates(root, ms[..last + 1], ops[..last], v);
      StepSimulates(root, ms[last], ops[last], ms[last + 1], After(v, ops[..last]));
    }
  }

  ghost function ViewOf(root: int, m: Memory): View {
    View(w => Translate(m, root, w), w => TableAt(m, root, w, 3).Some?)
  }

  lemma RunFromUnaliased(root: int, ms: seq<Memory>, ops: seq<Op>, w: int)
    requires IsRun(root, ms, ops) && Unaliased(ms[0], root)
    ensures Unaliased(ms[|ops|], root)
    ensures Translate(ms[|ops|], root, w) == After(ViewOf(root, ms[0]), ops).to(w)
  {
    var v := ViewOf(root, ms[0]);
    assert forall u :: Agrees(root, ms[0], v, u);
    RunSimulates(root, ms, ops, v);
    assert Agrees(root, ms[|ops|], After(v, ops), w);
  }

  // ---------- why the tables must be unaliased ----------

  /** Two page-directory entries that share one page table. */
  const SHARED: Memory := map[0x1000 := 0x2003, 0x2000 := 0x3003, 0x3000 := 0x4003, 0x3008 := 0x4003]

  lemma SharedIndices()
    ensures Index(0, 0) == 0 && Index(0, 1) == 0 && Index(0, 2) == 0 && Index(0, 3) == 0
    ensures Index(0x20_0000, 0) == 0 && Index(0x20_0000, 1) == 0 && Index(0x20_0000, 2) == 1 && Index(0x20_0000, 3) == 0
  {}

  lemma SharedSlots()
    ensures var v := 0x20_0000;
            Slot(0x1000, v, 0) == 0x1000 && Slot(0x2000, v, 1) == 0x2000 && Slot(0x3000, v, 2) == 0x3008 && Slot(0x4000, v, 3) == 0x4000
  {
    SharedIndices();
  }

  lemma SharedEntries()
    ensures Present(0x2003) && !Big(0x2003) && Target(0x2003) == 0x2000
    ensures Present(0x3003) && !Big(0x3003) && Target(0x3003) == 0x3000
    ensures Present(0x4003) && !Big(0x4003) && Target(0x4003) == 0x4000
    ensures Present(0x5003) && Target(0x5003) == 0x5000 && !Present(0)
  {}

  lemma SharedTables()
    ensures TableAt(SHARED, 0x1000, 0, 3) == Some(0x4000)
  {
    SharedIndices();
    SharedEntries();
    hide Index, Present, Big, Target;
    assert TableAt(SHARED, 0x1000, 0, 1) == Some(0x2000);
    assert TableAt(SHARED, 0x1000, 0, 2) == Some(0x3000);
  }

  lemma SharedBefore()
    ensures Translate(SHARED, 0x1000, 0x20_0000) == None
  {
    SharedSlots();
    SharedEntries();
    hide Slot, Present, Big, Target;
    assert WalkFrom(SHARED, 0x4000, 0x20_0000, 3) == None;
    assert WalkFrom(SHARED, 0x3000, 0x20_0000, 2) == None;
    assert WalkFrom(SHARED, 0x2000, 0x20_0000, 1) == None;
  }

  lemma SharedAfter()
    ensures Translate(SHARED[0x4000 := 0x5003], 0x1000, 0x20_0000) == Some(0x5000)
  {
    SharedSlots();
    SharedEntries();
    hide Slot, Present, Big, Target;
    var m' := SHARED[0x4000 := 0x5003];
    assert WalkFrom(m', 0x5000, 0x20_0000, 4) == Some(0x5000);
    assert WalkFrom(m', 0x4000, 0x20_0000, 3) == Some(0x5000);
    assert WalkFrom(m', 0x3000, 0x20_0000, 2) == Some(0x5000);
    assert WalkFrom(m', 0x2000, 0x20_0000, 1) == Some(0x5000);
  }

  /** Mapping page 0 then also maps the page 2 MB above it. */
  lemma SharedTableLeaks()
    ensures Page(0) != Page(0x20_0000)
    ensures Translate(SHARED, 0x1000, 0x20_0000) == None
    ensures Translate(Mapped(SHARED, 0x1000, 0, 0x5000), 0x1000, 0x20_0000) == Some(0x5000)
  {
    SharedTables();
    SharedBefore();
    SharedAfter();
    SharedIndices();
    hide Translate, TableAt, Index;
    assert Mapped(SHARED, 0x1000, 0, 0x5000) == SHARED[0x4000 := 0x5003];
  }
}
