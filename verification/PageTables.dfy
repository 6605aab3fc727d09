/**
 Four-level paging, as the kernel walks and edits it.

 Physical memory is a map from byte addresses to 64-bit words; an address with
 no word reads as zero. Words, physical and virtual addresses are integers, and
 every mask and shift of the kernel is written as the division or remainder it
 computes.
 */
module PageTables {
  import opened Wrappers
  import opened Arithmetic

  type Memory = map<int, int>

  function Read(m: Memory, a: int): int { if a in m then m[a] else 0 }

  // Entry fields: bit 0, bit 7, bit 2, and bits 51..12 in place.
  predicate Present(e: int) { e % 2 == 1 }
  predicate Big(e: int) { e / 128 % 2 == 1 }
  predicate User(e: int) { e / 4 % 2 == 1 }
  function Target(e: int): int { e / 4096 % 0x100_0000_0000 * 4096 }

  // entry | 0x4
  function SetUser(e: int): int { if User(e) then e else e + 4 }

  predicate Aligned(a: int) { a % 4096 == 0 }

  /** The nine bits of `v` that index the table at `level`; level 0 is the PML4. */
  function Index(v: int, level: nat): (i: int)
    requires level < 4
    ensures 0 <= i < 512
  {
    if level == 0 then v / 0x80_0000_0000 % 512
    else if level == 1 then v / 0x4000_0000 % 512
    else if level == 2 then v / 0x20_0000 % 512
    else v / 0x1000 % 512
  }

  function Slot(table: int, v: int, level: nat): int
    requires level < 4
  {
    table + 8 * Index(v, level)
  }

  /** An entry that ends the walk before the last level: a 1 GB or a 2 MB page. */
  predicate BigPage(e: int, level: nat) { (level == 1 || level == 2) && Big(e) }

  function BigOffset(v: int, level: nat): int {
    if level == 1 then v % 0x4000_0000 else v % 0x20_0000
  }

  /** The rest of a walk for `v` that has arrived at `table`, the table of `level`. */
  function WalkFrom(m: Memory, table: int, v: int, level: nat): Option<int>
    requires level <= 4
    decreases 4 - level
  {
    if level == 4 then Some(table + v % 4096)
    else
      var e := Read(m, Slot(table, v, level));
      if !Present(e) then None
      else if BigPage(e, level) then Some(Target(e) + BigOffset(v, level))
      else WalkFrom(m, Target(e), v, level + 1)
  }

  /** What the kernel's walker answers for `v`. */
  function Translate(m: Memory, root: int, v: int): Option<int> { WalkFrom(m, root, v, 0) }

  // ---------- agreement with the architecture ----------

  /** What decides which entry bits a processor reserves: 2^MAXPHYADDR, 1 GB pages, execute-disable. */
  datatype Processor = Processor(limit: int, gigabytePages: bool, executeDisable: bool)

  /**
   Reserved bits of a present entry, by section 4.5 of the Intel SDM, volume 3A: address bits from
   MAXPHYADDR up, bit 7 of a PML4 entry, bits 29..13 of a 1 GB page, bits 20..13 of a 2 MB page,
   bit 7 of a PDPT entry without 1 GB pages, bit 63 without execute-disable.
   */
  predicate Reserved(cpu: Processor, e: int, level: nat) {
    || Target(e) >= cpu.limit
    || (level == 0 && Big(e))
    || (level == 1 && Big(e) && (!cpu.gigabytePages || e / 0x2000 % 0x2_0000 != 0))
    || (level == 2 && Big(e) && e / 0x2000 % 0x100 != 0)
    || (!cpu.executeDisable && e / 0x8000_0000_0000_0000 % 2 == 1)
  }

  // Bits 51..30 and bits 51..21 in place.
  function GigabyteBase(e: int): int { e / 0x4000_0000 % 0x40_0000 * 0x4000_0000 }
  function TwoMegabyteBase(e: int): int { e / 0x20_0000 % 0x8000_0000 * 0x20_0000 }

  /**
   The translation of that section: an entry that is not present or has a reserved bit set
   translates nothing, a 1 GB page takes its base from bits 51..30 and a 2 MB page from bits 51..21.
   */
  function ArchitectureFrom(cpu: Processor, m: Memory, table: int, v: int, level: nat): Option<int>
    requires level <= 4
    decreases 4 - level
  {
    if level == 4 then Some(table + v % 0x1000)
    else
      var e := Read(m, Slot(table, v, level));
      if !Present(e) || Reserved(cpu, e, level) then None
      else if level == 1 && Big(e) then Some(GigabyteBase(e) + v % 0x4000_0000)
      else if level == 2 && Big(e) then Some(TwoMegabyteBase(e) + v % 0x20_0000)
      else ArchitectureFrom(cpu, m, Target(e), v, level + 1)
  }

  /** No entry that the walk reads has a reserved bit set, and a large page it ends in has bit 12, its PAT bit, clear. */
  predicate CleanFrom(cpu: Processor, m: Memory, table: int, v: int, level: nat)
    requires level <= 4
    decreases 4 - level
  {
    level == 4 ||
    var e := Read(m, Slot(table, v, level));
    && !Reserved(cpu, e, level)
    && if BigPage(e, level) then e / 4096 % 2 == 0 else CleanFrom(cpu, m, Target(e), v, level + 1)
  }

  lemma BigBase(e: int)
    ensures Target(e) == GigabyteBase(e) + e / 4096 % 0x4_0000 * 4096
    ensures Target(e) == TwoMegabyteBase(e) + e / 4096 % 512 * 4096
  {
    DivDiv(e, 4096, 0x4_0000);
    ModSplit(e / 4096, 0x4_0000, 0x40_0000);
    DivDiv(e, 4096, 512);
    ModSplit(e / 4096, 512, 0x8000_0000);
  }

  /** The bits between the page offset and a large page's base are the PAT bit and the reserved bits above it. */
  lemma BelowBase(e: int)
    ensures e / 4096 % 0x4_0000 == 2 * (e / 0x2000 % 0x2_0000) + e / 4096 % 2
    ensures e / 4096 % 512 == 2 * (e / 0x2000 % 0x100) + e / 4096 % 2
  {
    DivDiv(e, 4096, 2);
    ModSplit(e / 4096, 2, 0x2_0000);
    ModSplit(e / 4096, 2, 0x100);
  }

  lemma BigPageMatches(cpu: Processor, e: int, level: nat)
    requires BigPage(e, level) && !Reserved(cpu, e, level)
    ensures Target(e) == (if level == 1 then GigabyteBase(e) else TwoMegabyteBase(e)) <==> e / 4096 % 2 == 0
  {
    BigBase(e);
    BelowBase(e);
  }

  /** The walker answers as the architecture does exactly when it finds nothing or every entry on its way is clean. */
  lemma {:induction false} WalkMatchesArchitecture(cpu: Processor, m: Memory, table: int, v: int, level: nat)
    requires level <= 4
    ensures WalkFrom(m, table, v, level) == ArchitectureFrom(cpu, m, table, v, level)
            <==> (WalkFrom(m, table, v, level).Some? ==> CleanFrom(cpu, m, table, v, level))
    decreases 4 - level
  {
    if level < 4 {
      var e := Read(m, Slot(table, v, level));
      if BigPage(e, level) && !Reserved(cpu, e, level) { BigPageMatches(cpu, e, level); }
      hide Index, Present, Big, Reserved, Target, GigabyteBase, TwoMegabyteBase;
      WalkMatchesArchitecture(cpu, m, Target(e), v, level + 1);
    }
  }

  // ---------- the tables a walk visits ----------

  /** The table that the walk of `v` reads at `level`, if the walk gets that far. */
  function TableAt(m: Memory, root: int, v: int, level: nat): Option<int>
    requires level < 4
  {
    if level == 0 then Some(root)
    else
      var up := TableAt(m, root, v, level - 1);
      if up.None? then None
      else
        var e := Read(m, Slot(up.value, v, level - 1));
        if Present(e) && !BigPage(e, level - 1) then Some(Target(e)) else None
  }

  /** The address bits of `v` above the index of `level`; equal prefixes share a table. */
  function Prefix(v: int, level: nat): int
    requires level <= 4
  {
    if level == 0 then 0 else 512 * Prefix(v, level - 1) + Index(v, level - 1)
  }

  /** How many prefixes there are at `level`, and how many addresses share one. */
  function Prefixes(level: nat): (n: int)
    requires level <= 4
    ensures n > 0
  {
    match level
    case 0 => 1
    case 1 => 0x200
    case 2 => 0x4_0000
    case 3 => 0x800_0000
    case _ => 0x10_0000_0000
  }

  function Span(level: nat): (d: int)
    requires 1 <= level <= 4
    ensures d > 0
  {
    match level
    case 1 => 0x80_0000_0000
    case 2 => 0x4000_0000
    case 3 => 0x20_0000
    case _ => 0x1000
  }

  lemma {:induction false} PrefixIsAddress(v: int, level: nat)
    requires 1 <= level <= 4
    ensures Prefix(v, level) == v / Span(level) % Prefixes(level)
  {
    if level > 1 {
      PrefixIsAddress(v, level - 1);
      DivDiv(v, Span(level), 512);
      ModSplit(v / Span(level), 512, Prefixes(level - 1));
    }
  }

  lemma PrefixRange(v: int, level: nat)
    requires level <= 4
    ensures 0 <= Prefix(v, level) < Prefixes(level)
  {
    if level > 0 { PrefixIsAddress(v, level); }
  }

  /** The walks of `v` and `w` read the same table, at levels `i` and `j`. */
  predicate Meet(m: Memory, root: int, v: int, i: nat, w: int, j: nat)
    requires i < 4 && j < 4
  {
    TableAt(m, root, v, i).Some? && TableAt(m, root, v, i) == TableAt(m, root, w, j)
  }

  /** Each table is referenced once: two walks meet only at one level and under one prefix. */
  ghost predicate Unaliased(m: Memory, root: int) {
    && Aligned(root)
    && forall v, w, i: nat, j: nat {:trigger Meet(m, root, v, i, w, j)} | i < 4 && j < 4 && Meet(m, root, v, i, w, j) ::
         i == j && Prefix(v, i) == Prefix(w, j)
  }

  lemma TableAligned(m: Memory, root: int, v: int, level: nat)
    requires Aligned(root) && level < 4
    ensures TableAt(m, root, v, level).Some? ==> Aligned(TableAt(m, root, v, level).value)
  {}

  lemma {:induction false} WalkThrough(m: Memory, root: int, v: int, level: nat)
    requires level < 4 && TableAt(m, root, v, level).Some?
    ensures Translate(m, root, v) == WalkFrom(m, TableAt(m, root, v, level).value, v, level)
  {
    hide Index, Target, Present, Big;
    if level > 0 { WalkThrough(m, root, v, level - 1); }
  }

  lemma {:induction false} CutOff(m: Memory, root: int, v: int, level: nat)
    requires level < 4 && TableAt(m, root, v, level).None?
    ensures TableAt(m, root, v, 3).None?
    decreases 4 - level
  {
    hide Index, Target, Present, Big;
    if level < 3 { CutOff(m, root, v, level + 1); }
  }

  lemma {:induction false} SamePrefix(m: Memory, root: int, v: int, w: int, level: nat)
    requires level < 4 && Prefix(v, level) == Prefix(w, level)
    ensures TableAt(m, root, v, level) == TableAt(m, root, w, level)
  {
    hide Index, Target, Present, Big;
    if level > 0 { SamePrefix(m, root, v, w, level - 1); }
  }

  lemma RootApart(m: Memory, root: int, v: int, level: nat)
    requires Unaliased(m, root) && 1 <= level < 4
    ensures TableAt(m, root, v, level) != Some(root)
  {
    assert Meet(m, root, v, level, v, 0) ==> level == 0;
  }

  lemma SlotsApart(t: int, i: int, u: int, j: int)
    requires Aligned(t) && Aligned(u) && 0 <= i < 512 && 0 <= j < 512
    requires t + 8 * i == u + 8 * j
    ensures t == u && i == j
  {}

  /** In unaliased tables an entry is read only by the walks of the addresses it covers. */
  lemma SlotOwner(m: Memory, root: int, v: int, i: nat, w: int, j: nat)
    requires Unaliased(m, root) && i < 4 && j < 4
    requires TableAt(m, root, v, i).Some? && TableAt(m, root, w, j).Some?
    requires Slot(TableAt(m, root, v, i).value, v, i) == Slot(TableAt(m, root, w, j).value, w, j)
    ensures i == j && Prefix(v, i + 1) == Prefix(w, j + 1)
  {
    hide Index, Target, Present, Big;
    TableAligned(m, root, v, i);
    TableAligned(m, root, w, j);
    SlotsApart(TableAt(m, root, v, i).value, Index(v, i), TableAt(m, root, w, j).value, Index(w, j));
    assert Meet(m, root, v, i, w, j);
  }

  // ---------- editing one entry ----------

  /** `m` with the entry for `v` in the table of `level` replaced by `e`. */
  function Edit(m: Memory, root: int, v: int, level: nat, e: int): Memory
    requires level < 4 && TableAt(m, root, v, level).Some?
  {
    m[Slot(TableAt(m, root, v, level).value, v, level) := e]
  }

  /** Tables above the edited entry, and every table of an address it does not cover, are where they were. */
  lemma {:induction false} EditKeepsTables(m: Memory, root: int, v: int, level: nat, e: int, w: int, k: nat)
    requires Unaliased(m, root) && level < 4 && TableAt(m, root, v, level).Some? && k < 4
    requires k <= level || Prefix(w, level + 1) != Prefix(v, level + 1)
    ensures TableAt(Edit(m, root, v, level, e), root, w, k) == TableAt(m, root, w, k)
  {
    hide Index, Target, Present, Big;
    if k > 0 {
      EditKeepsTables(m, root, v, level, e, w, k - 1);
      var up := TableAt(m, root, w, k - 1);
      if up.Some? && Slot(up.value, w, k - 1) == Slot(TableAt(m, root, v, level).value, v, level) {
        SlotOwner(m, root, v, level, w, k - 1);
      }
    }
  }

  lemma {:induction false} EditKeepsWalk(m: Memory, root: int, v: int, level: nat, e: int, w: int, k: nat)
    requires Unaliased(m, root) && level < 4 && TableAt(m, root, v, level).Some? && k < 4
    requires Prefix(w, level + 1) != Prefix(v, level + 1) && TableAt(m, root, w, k).Some?
    ensures var t := TableAt(m, root, w, k).value;
            WalkFrom(Edit(m, root, v, level, e), t, w, k) == WalkFrom(m, t, w, k)
    decreases 4 - k
  {
    hide Index, Target, Present, Big;
    var t := TableAt(m, root, w, k).value;
    if Slot(t, w, k) == Slot(TableAt(m, root, v, level).value, v, level) {
      SlotOwner(m, root, v, level, w, k);
    } else if k < 3 && TableAt(m, root, w, k + 1).Some? {
      EditKeepsWalk(m, root, v, level, e, w, k + 1);
    }
  }

  lemma EditElsewhere(m: Memory, root: int, v: int, level: nat, e: int, w: int)
    requires Unaliased(m, root) && level < 4 && TableAt(m, root, v, level).Some?
    requires Prefix(w, level + 1) != Prefix(v, level + 1)
    ensures Translate(Edit(m, root, v, level, e), root, w) == Translate(m, root, w)
  {
    hide Index, Target, Present, Big;
    EditKeepsWalk(m, root, v, level, e, w, 0);
  }

  /** The edited entry is what the walk of every address it covers now reads at `level`. */
  lemma EditHere(m: Memory, root: int, v: int, level: nat, e: int, w: int)
    requires Unaliased(m, root) && level < 4 && TableAt(m, root, v, level).Some?
    requires Prefix(w, level + 1) == Prefix(v, level + 1)
    ensures var t, m' := TableAt(m, root, v, level).value, Edit(m, root, v, level, e);
            && TableAt(m', root, w, level) == Some(t)
            && Read(m', Slot(t, w, level)) == e
            && Translate(m', root, w) == WalkFrom(m', t, w, level)
  {
    hide Index, Target, Present, Big;
    var m' := Edit(m, root, v, level, e);
    SamePrefix(m, root, v, w, level);
    EditKeepsTables(m, root, v, level, e, w, level);
    WalkThrough(m', root, w, level);
  }

  /** A page that no walk uses as a table and that holds no present entry. */
  ghost predicate Unused(m: Memory, root: int, t: int) {
    && Aligned(t)
    && (forall v, k: nat | k < 4 :: TableAt(m, root, v, k) != Some(t))
    && (forall a | t <= a < t + 4096 :: !Present(Read(m, a)))
  }

  lemma OutsideUnused(m: Memory, root: int, t: int, u: int, i: int, j: int, e: int)
    requires Unused(m, root, t) && Aligned(u) && u != t && 0 <= i < 512 && 0 <= j < 512
    ensures !Present(Read(m[u + 8 * j := e], t + 8 * i))
  {
    assert !Present(Read(m, t + 8 * i));
    if t + 8 * i == u + 8 * j { SlotsApart(t, i, u, j); }
  }

  /** What an edit may install without making two references to one table. */
  ghost predicate Installable(m: Memory, root: int, level: nat, e: int) {
    !Present(e) || level == 3 || BigPage(e, level) || Unused(m, root, Target(e))
  }

  lemma EditBelow(m: Memory, root: int, v: int, level: nat, e: int, w: int, k: nat)
    requires Unaliased(m, root) && level < 4 && TableAt(m, root, v, level).Some?
    requires Installable(m, root, level, e)
    requires level < k < 4 && Prefix(w, level + 1) == Prefix(v, level + 1)
    ensures TableAt(Edit(m, root, v, level, e), root, w, k) ==
            if k == level + 1 && Present(e) && !BigPage(e, level) then Some(Target(e)) else None
    decreases k
  {
    hide Index, Target, Present, Big;
    var m' := Edit(m, root, v, level, e);
    EditHere(m, root, v, level, e, w);
    if k > level + 1 {
      EditBelow(m, root, v, level, e, w, k - 1);
      if k == level + 2 && Present(e) && !BigPage(e, level) {
        TableAligned(m, root, v, level);
        OutsideUnused(m, root, Target(e), TableAt(m, root, v, level).value, Index(w, k - 1), Index(v, level), e);
      }
    }
  }

  /** An edit leaves a table in place, cuts it off, or hangs a fresh one under the edited entry. */
  lemma TablesAfterEdit(m: Memory, root: int, v: int, level: nat, e: int, w: int, k: nat)
    requires Unaliased(m, root) && level < 4 && TableAt(m, root, v, level).Some? && k < 4
    requires Installable(m, root, level, e)
    ensures var t := TableAt(Edit(m, root, v, level, e), root, w, k);
            || t == TableAt(m, root, w, k)
            || t == None
            || (t == Some(Target(e)) && Unused(m, root, Target(e)) && k == level + 1 && Prefix(w, k) == Prefix(v, k))
  {
    hide Index, Target, Present, Big;
    if k <= level || Prefix(w, level + 1) != Prefix(v, level + 1) {
      EditKeepsTables(m, root, v, level, e, w, k);
    } else {
      EditBelow(m, root, v, level, e, w, k);
    }
  }

  lemma EditKeepsUnaliased(m: Memory, root: int, v: int, level: nat, e: int)
    requires Unaliased(m, root) && level < 4 && TableAt(m, root, v, level).Some?
    requires Installable(m, root, level, e)
    ensures Unaliased(Edit(m, root, v, level, e), root)
  {
    hide Index, Target, Present, Big;
    var m' := Edit(m, root, v, level, e);
    forall u, w, i: nat, j: nat | i < 4 && j < 4 && Meet(m', root, u, i, w, j)
      ensures i == j && Prefix(u, i) == Prefix(w, j)
    {
      assert Meet(m, root, u, i, w, j) ==> i == j && Prefix(u, i) == Prefix(w, j);
      TablesAfterEdit(m, root, v, level, e, u, i);
      TablesAfterEdit(m, root, v, level, e, w, j);
    }
  }

  // ---------- the user bit ----------

  lemma UserBitIsLow(e: int)
    ensures e / 8 == SetUser(e) / 8 && e % 2 == SetUser(e) % 2
    ensures User(SetUser(e))
  {
    var q, r := e / 8, e % 8;
    var r' := if r < 4 then r + 4 else r;
    Quotient(e, 4, 2 * q + r / 4, r % 4);
    Quotient(e, 2, 4 * q + r / 2, r % 2);
    Quotient(8 * q + r', 8, q, r');
    Quotient(8 * q + r', 4, 2 * q + 1, r' % 4);
    Quotient(8 * q + r', 2, 4 * q + r' / 2, r' % 2);
    Quotient(2 * q + r / 4, 2, q, r / 4);
    Quotient(2 * q + 1, 2, q, 1);
  }

  lemma HighFields(e: int)
    ensures e / 128 == e / 8 / 16 && e / 4096 == e / 8 / 512
  {
    DivDiv(e, 8, 16);
    DivDiv(e, 8, 512);
  }

  lemma SameEntry(e: int, e': int)
    requires SetUser(e) == SetUser(e')
    ensures Present(e) == Present(e') && Big(e) == Big(e') && Target(e) == Target(e')
  {
    UserBitIsLow(e);
    UserBitIsLow(e');
    HighFields(e);
    HighFields(e');
  }

  /** The two memories differ at most in bit 2 of some words. */
  ghost predicate SameButUser(m: Memory, m': Memory) {
    forall a :: SetUser(Read(m', a)) == SetUser(Read(m, a))
  }

  lemma {:induction false} WalkIgnoresUserBit(m: Memory, m': Memory, table: int, v: int, level: nat)
    requires SameButUser(m, m') && level <= 4
    ensures WalkFrom(m', table, v, level) == WalkFrom(m, table, v, level)
    decreases 4 - level
  {
    hide Index, Target, Present, Big;
    if level < 4 {
      var s := Slot(table, v, level);
      SameEntry(Read(m, s), Read(m', s));
      WalkIgnoresUserBit(m, m', Target(Read(m, s)), v, level + 1);
    }
  }

  lemma {:induction false} TablesIgnoreUserBit(m: Memory, m': Memory, root: int, v: int, level: nat)
    requires SameButUser(m, m') && level < 4
    ensures TableAt(m', root, v, level) == TableAt(m, root, v, level)
  {
    hide Index, Target, Present, Big, SetUser;
    if level > 0 {
      TablesIgnoreUserBit(m, m', root, v, level - 1);
      var up := TableAt(m, root, v, level - 1);
      if up.Some? {
        var s := Slot(up.value, v, level - 1);
        SameEntry(Read(m, s), Read(m', s));
      }
    }
  }

  /** `a` is one of the first `count` words of `table`. */
  predicate InTable(table: int, count: int, a: int) {
    0 <= a - table < 8 * count && (a - table) % 8 == 0
  }

  predicate Descends(e: int) { Present(e) && !Big(e) }

  /**
   `a` holds a present entry that the loop nest started at `table` comes across,
   going through the first `count` entries of that table and all of each table below.
   */
  ghost predicate Reaches(m: Memory, table: int, level: nat, count: int, a: int)
    requires level < 4
    decreases 4 - level
  {
    || (InTable(table, count, a) && Present(Read(m, a)))
    || (level < 3 && exists s :: InTable(table, count, s) && Descends(Read(m, s)) && Reaches(m, Target(Read(m, s)), level + 1, 512, a))
  }

  /** `m'` is `m` with bit 2 set in exactly the entries that the loop nest reaches. */
  ghost predicate Unlocked(m: Memory, m': Memory, table: int, level: nat, count: int)
    requires level < 4
  {
    forall a :: UnlockedAt(m, m', table, level, count, a)
  }

  ghost predicate UnlockedAt(m: Memory, m': Memory, table: int, level: nat, count: int, a: int)
    requires level < 4
  {
    Read(m', a) == if Reaches(m, table, level, count, a) then SetUser(Read(m, a)) else Read(m, a)
  }

  lemma {:induction false} ReachesIgnoresUserBit(m: Memory, m': Memory, table: int, level: nat, count: int, a: int)
    requires SameButUser(m, m') && level < 4
    ensures Reaches(m, table, level, count, a) == Reaches(m', table, level, count, a)
    decreases 4 - level
  {
    hide Index, Target, Present, Big;
    SameEntry(Read(m, a), Read(m', a));
    if level < 3 {
      forall s
        ensures Descends(Read(m, s)) == Descends(Read(m', s)) && Target(Read(m, s)) == Target(Read(m', s))
        ensures Reaches(m, Target(Read(m, s)), level + 1, 512, a) == Reaches(m', Target(Read(m, s)), level + 1, 512, a)
      {
        SameEntry(Read(m, s), Read(m', s));
        ReachesIgnoresUserBit(m, m', Target(Read(m, s)), level + 1, 512, a);
      }
    }
  }

  lemma UnlockedIsSame(m: Memory, m': Memory, table: int, level: nat, count: int)
    requires level < 4 && Unlocked(m, m', table, level, count)
    ensures SameButUser(m, m')
  {
    forall a
      ensures SetUser(Read(m', a)) == SetUser(Read(m, a))
    {
      assert UnlockedAt(m, m', table, level, count, a);
      SetUserTwice(Read(m, a));
    }
  }

  lemma SetUserTwice(e: int)
    ensures User(SetUser(e)) && SetUser(SetUser(e)) == SetUser(e)
  {
    UserBitIsLow(e);
  }

  /** Going through one entry more reaches that entry and, through it, the table below. */
  lemma ReachesNext(m: Memory, table: int, level: nat, i: int, a: int)
    requires level < 4 && 0 <= i
    ensures var s := table + 8 * i;
            Reaches(m, table, level, i + 1, a) <==>
            || Reaches(m, table, level, i, a)
            || (a == s && Present(Read(m, s)))
            || (level < 3 && Descends(Read(m, s)) && Reaches(m, Target(Read(m, s)), level + 1, 512, a))
  {
    hide Index, Target, Present, Big;
    var s := table + 8 * i;
    assert InTable(table, i + 1, s);
    forall b
      ensures InTable(table, i + 1, b) <==> InTable(table, i, b) || b == s
    {
      NextWord(table, i, b);
    }
  }

  lemma NextWord(table: int, i: int, b: int)
    requires 0 <= i
    ensures InTable(table, i + 1, b) <==> InTable(table, i, b) || b == table + 8 * i
  {}

  // ---------- walks that the user bit lets through ----------

  /** Every entry that the rest of the walk reads is present and has its user bit set. */
  predicate UserPath(m: Memory, table: int, v: int, level: nat)
    requires level < 4
    decreases 4 - level
  {
    var e := Read(m, Slot(table, v, level));
    && Present(e) && User(e)
    && (level == 3 || BigPage(e, level) || UserPath(m, Target(e), v, level + 1))
  }

  lemma SlotInTable(table: int, v: int, level: nat)
    requires level < 4
    ensures InTable(table, 512, Slot(table, v, level))
  {}

  /** The loop nest covers every walk path below a table it enters. */
  lemma {:induction false} SweepOpensPath(m: Memory, m': Memory, table: int, v: int, level: nat)
    requires level < 4 && SameButUser(m, m')
    requires forall a :: Reaches(m, table, level, 512, a) ==> User(Read(m', a))
    requires level == 0 ==> !Big(Read(m, Slot(table, v, 0)))
    requires WalkFrom(m, table, v, level).Some?
    ensures UserPath(m', table, v, level)
    decreases 4 - level
  {
    var s := Slot(table, v, level);
    var e := Read(m, s);
    SlotInTable(table, v, level);
    SameEntry(e, Read(m', s));
    assert Reaches(m, table, level, 512, s);
    if level < 3 && !BigPage(e, level) {
      SweepOpensPath(m, m', Target(e), v, level + 1);
    }
  }

  // ---------- the sweep reaches only entries that some walk reads ----------

  /** The lowest address under a prefix. */
  function AddressOf(prefix: int, level: nat): int
    requires 1 <= level <= 4
  {
    prefix * Span(level)
  }

  lemma AddressOfPrefix(prefix: int, level: nat)
    requires 1 <= level <= 4 && 0 <= prefix < Prefixes(level)
    ensures Prefix(AddressOf(prefix, level), level) == prefix
  {
    hide Index, Prefixes, Span;
    PrefixIsAddress(AddressOf(prefix, level), level);
    Quotient(AddressOf(prefix, level), Span(level), prefix, 0);
    Quotient(prefix, Prefixes(level), 0, prefix);
  }

  /** `s` is the slot that the walk of `w` reads at `level`, under a PML4 entry with bit 7 clear if below it. */
  predicate ReadAt(m: Memory, root: int, w: int, level: nat, s: int)
    requires level < 4
  {
    && TableAt(m, root, w, level).Some?
    && Slot(TableAt(m, root, w, level).value, w, level) == s
    && (level > 0 ==> !Big(Read(m, Slot(root, w, 0))))
  }

  lemma {:induction false} SweepFollowsWalks(m: Memory, root: int, v: int, level: nat, a: int) returns (w: int, k: nat)
    requires level < 4 && TableAt(m, root, v, level).Some?
    requires level > 0 ==> !Big(Read(m, Slot(root, v, 0)))
    requires Reaches(m, TableAt(m, root, v, level).value, level, 512, a)
    ensures k < 4 && ReadAt(m, root, w, k, a)
    decreases 4 - level
  {
    hide Index, Target, Present, Big;
    var t := TableAt(m, root, v, level).value;
    if InTable(t, 512, a) && Present(Read(m, a)) {
      w := Redirect(m, root, v, level, a);
      k := level;
    } else {
      var s :| InTable(t, 512, s) && Descends(Read(m, s)) && Reaches(m, Target(Read(m, s)), level + 1, 512, a);
      var u := Redirect(m, root, v, level, s);
      w, k := SweepFollowsWalks(m, root, u, level + 1, a);
    }
  }

  /** An address that shares the tables of `v` down to `level` and there selects the word at `s`. */
  lemma Redirect(m: Memory, root: int, v: int, level: nat, s: int) returns (u: int)
    requires level < 4 && TableAt(m, root, v, level).Some?
    requires level > 0 ==> !Big(Read(m, Slot(root, v, 0)))
    requires InTable(TableAt(m, root, v, level).value, 512, s)
    ensures ReadAt(m, root, u, level, s)
    ensures TableAt(m, root, u, level) == TableAt(m, root, v, level)
  {
    hide Index, Target, Present, Big;
    var t := TableAt(m, root, v, level).value;
    var i := (s - t) / 8;
    assert s == t + 8 * i && 0 <= i < 512;
    var p := 512 * Prefix(v, level) + i;
    PrefixRange(v, level);
    u := AddressOf(p, level + 1);
    AddressOfPrefix(p, level + 1);
    assert Prefix(u, level) == Prefix(v, level) && Index(u, level) == i;
    SamePrefix(m, root, u, v, level);
    if level > 0 { TopIndex(u, v, level); }
  }

  lemma {:induction false} TopIndex(u: int, v: int, level: nat)
    requires 1 <= level <= 4 && Prefix(u, level) == Prefix(v, level)
    ensures Index(u, 0) == Index(v, 0)
  {
    if level > 1 { TopIndex(u, v, level - 1); }
  }

  /** Whoever reads the entry that `v` reads at `level` goes through the same PML4 entry. */
  lemma SharedTop(m: Memory, root: int, v: int, level: nat, w: int, k: nat, s: int)
    requires Unaliased(m, root) && 1 <= level < 4 && k < 4
    requires TableAt(m, root, v, level).Some? && s == Slot(TableAt(m, root, v, level).value, v, level)
    requires ReadAt(m, root, w, k, s)
    ensures !Big(Read(m, Slot(root, v, 0)))
  {
    hide Index, Target, Present, Big, Prefix, TableAt, Unaliased;
    SlotOwner(m, root, v, level, w, k);
    TopIndex(w, v, level + 1);
  }

  /** With bit 7 set in its PML4 entry, the sweep reaches nothing below on the walk of `v`. */
  lemma SweepStopsAtBit7(m: Memory, root: int, v: int, level: nat)
    requires Unaliased(m, root) && 1 <= level < 4 && TableAt(m, root, v, level).Some?
    requires Big(Read(m, Slot(root, v, 0)))
    ensures !Reaches(m, root, 0, 512, Slot(TableAt(m, root, v, level).value, v, level))
  {
    assert TableAt(m, root, v, 0) == Some(root);
    hide Index, Target, Present, Big, Reaches, Prefix, TableAt, Unaliased, Slot, Read, ReadAt;
    var s := Slot(TableAt(m, root, v, level).value, v, level);
    if Reaches(m, root, 0, 512, s) {
      var w, k := SweepFollowsWalks(m, root, v, 0, s);
      SharedTop(m, root, v, level, w, k, s);
    }
  }
}
