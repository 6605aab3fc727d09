/**
 The bitmap frame allocator, against the set of frames that are free. Bit f % 64
 of word f / 64 is 1 when frame f is free; only frames below 65536 are tracked.
 */
module FrameAllocator {
  import opened Wrappers
  import opened Bits

  const WORDS := 1024
  const FRAMES := 65536
  const PAGE_SIZE := 4096

  datatype Descriptor = Descriptor(ty: int, physicalStart: nat, pages: nat)

  function First(d: Descriptor): nat { d.physicalStart / PAGE_SIZE }

  /** The tracked frames that a descriptor makes available. */
  function Frames(d: Descriptor): set<nat> {
    if d.ty != 7 then {} else Range(First(d), First(d) + d.pages)
  }

  predicate Within(lo: nat, hi: nat, f: nat) { lo <= f < hi }

  function Range(lo: nat, hi: nat): set<nat> { set f: nat | f < FRAMES && Within(lo, hi, f) }

  function RangeSize(lo: nat, hi: nat): nat {
    if lo >= FRAMES || lo >= hi then 0 else if hi >= FRAMES then FRAMES - lo else hi - lo
  }

  /** The conventional memory below the tracking limit. */
  function Conventional(ds: seq<Descriptor>): set<nat> {
    if ds == [] then {} else Conventional(ds[..|ds| - 1]) + Frames(ds[|ds| - 1])
  }

  lemma {:induction false} ConventionalMeans(ds: seq<Descriptor>, f: nat)
    ensures f in Conventional(ds) <==>
            f < 65536 && exists i :: 0 <= i < |ds| && ds[i].ty == 7 && ds[i].physicalStart / 4096 <= f < ds[i].physicalStart / 4096 + ds[i].pages
  {
    if ds != [] {
      ConventionalMeans(ds[..|ds| - 1], f);
      if f in Frames(ds[|ds| - 1]) { assert ds[|ds| - 1].ty == 7; }
    }
  }

  // ---------- what allocation returns ----------

  ghost predicate IsLeast(m: nat, s: set<nat>) { m in s && forall f | f in s :: m <= f }

  lemma {:induction false} LeastExists(s: set<nat>) returns (m: nat)
    requires s != {}
    ensures IsLeast(m, s)
  {
    m :| m in s;
    if s != {m} {
      var rest := s - {m};
      var y := LeastExists(rest);
      assert s == rest + {m};
      if y < m { m := y; }
    }
  }

  ghost function Min(s: set<nat>): (m: nat)
    requires s != {}
    ensures IsLeast(m, s)
  {
    assert exists m :: IsLeast(m, s) by { var m := LeastExists(s); }
    var m :| IsLeast(m, s);
    m
  }

  /** The frames of a set from the smallest up. */
  ghost function Ascending(s: set<nat>): (r: seq<nat>)
    ensures |r| == |s|
  {
    if s == {} then [] else [Min(s)] + Ascending(s - {Min(s)})
  }

  /** How many members of `s` are smaller than `f`. */
  function Rank(s: set<nat>, f: nat): nat { |set g | g in s && g < f| }

  /** `Ascending(s)[k]` is the k-th smallest member: it is in `s` and exactly k members are smaller. */
  lemma {:induction false} AscendingIsSorted(s: set<nat>, k: nat)
    requires k < |s|
    ensures Ascending(s)[k] in s && Rank(s, Ascending(s)[k]) == k
  {
    var m := Min(s);
    if k == 0 {
      assert (set g | g in s && g < m) == {};
    } else {
      var rest := s - {m};
      AscendingIsSorted(rest, k - 1);
      RankStep(s, m, Ascending(rest)[k - 1]);
    }
  }

  lemma RankStep(s: set<nat>, m: nat, f: nat)
    requires IsLeast(m, s) && f in s - {m}
    ensures Rank(s, f) == 1 + Rank(s - {m}, f)
  {
    assert (set g | g in s && g < f) == {m} + (set g | g in s - {m} && g < f);
  }

  datatype Pool = Pool(free: set<nat>, count: int)

  /** What one call leaves behind: the smallest free frame is gone and the counter is one less. */
  ghost function Taken(p: Pool): Pool {
    if p.free == {} then p else Pool(p.free - {Min(p.free)}, p.count - 1)
  }

  ghost function Answer(p: Pool): Option<int> {
    if p.free == {} then None else Some(Min(p.free) * PAGE_SIZE)
  }

  ghost function After(p: Pool, calls: nat): Pool
    decreases calls
  {
    if calls == 0 then p else After(Taken(p), calls - 1)
  }

  /** The k-th call returns the k-th smallest free frame, and nothing once they have run out. */
  lemma {:induction false} KthAllocation(p: Pool, k: nat)
    ensures Answer(After(p, k)) == if k < |p.free| then Some(Ascending(p.free)[k] * PAGE_SIZE) else None
    ensures |After(p, k).free| == if k < |p.free| then |p.free| - k else 0
    ensures After(p, k).count - |After(p, k).free| == p.count - |p.free|
    decreases k
  {
    if k > 0 { KthAllocation(Taken(p), k - 1); }
  }

  // ---------- the counter ----------

  /** What `init` adds to the counter, for one descriptor and for all. */
  function Added(d: Descriptor): nat { if d.ty != 7 then 0 else RangeSize(First(d), First(d) + d.pages) }

  function Counted(ds: seq<Descriptor>): nat {
    if ds == [] then 0 else Counted(ds[..|ds| - 1]) + Added(ds[|ds| - 1])
  }

  lemma {:induction false} RangeCardinality(lo: nat, hi: nat)
    ensures |Range(lo, hi)| == RangeSize(lo, hi)
    decreases hi - lo
  {
    if lo < hi && lo < FRAMES {
      RangeCardinality(lo + 1, hi);
      assert Range(lo, hi) == {lo} + Range(lo + 1, hi);
    } else {
      assert Range(lo, hi) == {};
    }
  }

  lemma NextDescriptor(ds: seq<Descriptor>, i: nat)
    requires i < |ds|
    ensures Conventional(ds[..i + 1]) == Conventional(ds[..i]) + Frames(ds[i])
    ensures Counted(ds[..i + 1]) == Counted(ds[..i]) + Added(ds[i])
  {
    assert ds[..i + 1][..i] == ds[..i];
  }

  /** After `init` on any memory map, call number k answers the frame with exactly k conventional frames below it. */
  lemma KthFrameAfterInit(ds: seq<Descriptor>, k: nat)
    ensures var s := Conventional(ds);
            var answer := Answer(After(Pool(s, Counted(ds)), k));
            if k < |s| then exists f :: f in s && Rank(s, f) == k && answer == Some(f * 4096) else answer == None
  {
    var s := Conventional(ds);
    KthAllocation(Pool(s, Counted(ds)), k);
    if k < |s| { AscendingIsSorted(s, k); }
  }

  /** No frame belongs to two conventional descriptors. */
  ghost predicate NonOverlapping(ds: seq<Descriptor>) {
    forall i, j | 0 <= i < j < |ds| :: Frames(ds[i]) !! Frames(ds[j])
  }

  lemma {:induction false} InConventional(ds: seq<Descriptor>, i: nat)
    requires i < |ds|
    ensures Frames(ds[i]) <= Conventional(ds)
  {
    if i < |ds| - 1 { InConventional(ds[..|ds| - 1], i); }
  }

  lemma {:induction false} DisjointFromAll(ds: seq<Descriptor>, s: set<nat>)
    requires forall i | 0 <= i < |ds| :: Frames(ds[i]) !! s
    ensures Conventional(ds) !! s
  {
    if ds != [] { DisjointFromAll(ds[..|ds| - 1], s); }
  }

  lemma UnionSize(a: set<nat>, b: set<nat>)
    ensures |a + b| <= |a| + |b| && (|a + b| == |a| + |b| <==> a !! b)
  {
    assert |a + b| == |a| + |b| - |a * b|;
    if x :| x in a * b { assert !(a !! b); }
  }

  /** The counter never falls short of the free frames, and is exact exactly when no two descriptors overlap. */
  lemma {:induction false} CounterExact(ds: seq<Descriptor>)
    ensures Counted(ds) >= |Conventional(ds)|
    ensures Counted(ds) == |Conventional(ds)| <==> NonOverlapping(ds)
  {
    if ds != [] {
      var before, d := ds[..|ds| - 1], ds[|ds| - 1];
      CounterExact(before);
      RangeCardinality(First(d), First(d) + d.pages);
      UnionSize(Conventional(before), Frames(d));
      LastOverlaps(ds);
    }
  }

  /** Two descriptors that share a frame: it is free once and counted twice. */
  lemma OverlapCountsTwice()
    ensures var ds := [Descriptor(7, 0, 2), Descriptor(7, 4096, 1)];
            Counted(ds) == 3 && Conventional(ds) == {0, 1} && |Conventional(ds)| == 2
  {
    var d, e := Descriptor(7, 0, 2), Descriptor(7, 4096, 1);
    assert [d, e][..1] == [d] && [d][..0] == [];
    assert Conventional([d]) == Frames(d) && Counted([d]) == 2;
    assert Frames(d) == {0, 1} && Frames(e) == {1};
  }

  lemma LastOverlaps(ds: seq<Descriptor>)
    requires ds != []
    ensures NonOverlapping(ds) <==>
            NonOverlapping(ds[..|ds| - 1]) && Conventional(ds[..|ds| - 1]) !! Frames(ds[|ds| - 1])
  {
    var before, last := ds[..|ds| - 1], |ds| - 1;
    if NonOverlapping(ds) {
      forall i, j | 0 <= i < j < |before| ensures Frames(before[i]) !! Frames(before[j]) {
        assert before[i] == ds[i] && before[j] == ds[j];
      }
      forall i | 0 <= i < |before| ensures Frames(before[i]) !! Frames(ds[last]) {
        assert before[i] == ds[i];
      }
      DisjointFromAll(before, Frames(ds[last]));
    }
    if NonOverlapping(before) && Conventional(before) !! Frames(ds[last]) {
      forall i, j | 0 <= i < j < |ds| ensures Frames(ds[i]) !! Frames(ds[j]) {
        assert before[i] == ds[i];
        if j < last { assert before[j] == ds[j]; } else { InConventional(before, i); }
      }
    }
  }

  lemma CounterCovers(ds: seq<Descriptor>)
    ensures Counted(ds) >= |Conventional(ds)|
  {
    CounterExact(ds);
  }

  /** In every state a run can reach, the counter covers the free frames; it is exact iff the map does not overlap. */
  lemma CounterAlwaysExact(ds: seq<Descriptor>, calls: nat)
    ensures var p := After(Pool(Conventional(ds), Counted(ds)), calls);
            p.count >= |p.free| >= 0 && (p.count == |p.free| <==> NonOverlapping(ds))
  {
    KthAllocation(Pool(Conventional(ds), Counted(ds)), calls);
    CounterExact(ds);
  }

  // ---------- the kernel's code ----------

  predicate FreeAt(bitmap: seq<int>, f: nat)
    requires |bitmap| == WORDS && f < FRAMES
  {
    Bit(bitmap[f / 64], f % 64)
  }

  function FreeSet(bitmap: seq<int>): set<nat>
    requires |bitmap| == WORDS
  {
    set f: nat | f < FRAMES && FreeAt(bitmap, f)
  }

  lemma WordOf(f: nat, g: nat)
    ensures f == g <==> f / 64 == g / 64 && f % 64 == g % 64
  {}

  lemma SetFrame(bitmap: seq<int>, f: nat)
    requires |bitmap| == WORDS && f < FRAMES
    ensures FreeSet(bitmap[f / 64 := SetBit(bitmap[f / 64], f % 64)]) == FreeSet(bitmap) + {f}
    ensures FreeSet(bitmap[f / 64 := ClearBit(bitmap[f / 64], f % 64)]) == FreeSet(bitmap) - {f}
  {
    hide Bit, SetBit, ClearBit;
    forall g: nat | g < FRAMES
      ensures FreeAt(bitmap[f / 64 := SetBit(bitmap[f / 64], f % 64)], g) <==> g == f || FreeAt(bitmap, g)
      ensures FreeAt(bitmap[f / 64 := ClearBit(bitmap[f / 64], f % 64)], g) <==> g != f && FreeAt(bitmap, g)
    {
      WordOf(f, g);
      BitAfter(bitmap[f / 64], f % 64, g % 64);
    }
  }

  class BitmapAllocator {
    const bitmap: array<int>
    var highestFrame: nat
    var freeFrames: int

    ghost function Free(): set<nat>
      requires bitmap.Length == WORDS
      reads bitmap
    {
      FreeSet(bitmap[..])
    }

    /** No free frame lies above the high-water mark. */
    ghost predicate Marked()
      reads this, bitmap
    {
      && bitmap.Length == WORDS
      && highestFrame < FRAMES
      && (forall f | f in Free() :: f <= highestFrame)
    }

    /** Besides, the counter cannot underflow. */
    ghost predicate Valid()
      reads this, bitmap
    {
      Marked() && |Free()| <= freeFrames
    }

    constructor ()
      ensures Valid() && fresh(bitmap) && Free() == {} && freeFrames == 0
    {
      bitmap := new int[WORDS](_ => 0);
      highestFrame, freeFrames := 0, 0;
      new;
      forall f: nat | f < FRAMES ensures !FreeAt(bitmap[..], f) { ZeroBits(f % 64); }
      assert Free() == {};
    }

    method Init(ds: seq<Descriptor>)
      requires Valid() && Free() == {} && freeFrames == 0
      modifies this, bitmap
      ensures Valid() && Free() == Conventional(ds) && freeFrames == Counted(ds)
    {
      assert Conventional(ds[..0]) == {} && Counted(ds[..0]) == 0;
      hide Conventional, Counted, FreeSet, Frames, Added;
      for i := 0 to |ds|
        invariant Marked() && Free() == Conventional(ds[..i]) && freeFrames == Counted(ds[..i])
      {
        NextDescriptor(ds, i);
        AddDescriptor(ds[i]);
      }
      assert ds[..|ds|] == ds;
      CounterCovers(ds);
    }

    method AddDescriptor(d: Descriptor)
      requires Marked()
      modifies this, bitmap
      ensures Marked() && Free() == old(Free()) + Frames(d) && freeFrames == old(freeFrames) + Added(d)
    {
      hide Range, RangeSize, FreeSet;
      if d.ty == 7 {
        var start := d.physicalStart / PAGE_SIZE;
        var end := start + d.pages;
        AddRange(start, end);
      }
    }

    method AddRange(start: nat, end: nat)
      requires Marked() && start <= end
      modifies this, bitmap
      ensures Marked() && Free() == old(Free()) + Range(start, end)
      ensures freeFrames == old(freeFrames) + RangeSize(start, end)
    {
      for frame := start to end
        invariant Marked() && Free() == old(Free()) + Range(start, frame)
        invariant freeFrames == old(freeFrames) + RangeSize(start, frame)
      {
        assert Range(start, frame + 1) == Range(start, frame) + if frame < FRAMES then {frame} else {};
        if frame < WORDS * 64 {
          SetFrame(bitmap[..], frame);
          bitmap[frame / 64] := SetBit(bitmap[frame / 64], frame % 64);
          freeFrames := freeFrames + 1;
          if frame > highestFrame { highestFrame := frame; }
        }
      }
    }

    method AllocateFrame() returns (r: Option<int>)
      requires Valid()
      modifies this, bitmap
      ensures Valid()
      ensures r == old(Answer(Pool(Free(), freeFrames)))
      ensures Pool(Free(), freeFrames) == old(Taken(Pool(Free(), freeFrames)))
    {
      hide Bit, ClearBit, FreeSet, Min;
      ghost var free := Free();
      for i := 0 to highestFrame + 1
        invariant bitmap[..] == old(bitmap[..]) && freeFrames == old(freeFrames) && highestFrame == old(highestFrame)
        invariant forall f | f in free :: i <= f
      {
        InFreeSet(bitmap[..], i);
        if Bit(bitmap[i / 64], i % 64) {
          SetFrame(bitmap[..], i);
          MinIs(free, i);
          bitmap[i / 64] := ClearBit(bitmap[i / 64], i % 64);
          freeFrames := freeFrames - 1;
          assert |free - {i}| == |free| - 1;
          return Some(i * PAGE_SIZE);
        }
      }
      assert free == {};
      return None;
    }
  }

  lemma InFreeSet(bitmap: seq<int>, f: nat)
    requires |bitmap| == WORDS && f < FRAMES
    ensures f in FreeSet(bitmap) <==> Bit(bitmap[f / 64], f % 64)
  {}

  lemma MinIs(s: set<nat>, m: nat)
    requires IsLeast(m, s)
    ensures Min(s) == m
  {}
}
