/** Pages that each take their frame from the allocator: no two of them share one. */
module Provisioning {
  import opened Wrappers
  import opened Arithmetic
  import opened PageTables
  import opened Mmu
  import opened FrameAllocator

  /**
   Each mapping spends the answer of an allocate_frame call of its own: mapping i that of call number
   call[i]. Calls may be spent late, out of order, on other things, or not at all.
   */
  ghost predicate Provisioned(p: Pool, rs: seq<Request>, call: seq<nat>) {
    && |call| == |rs|
    && (forall i, j | 0 <= i < j < |call| :: call[i] != call[j])
    && (forall i | 0 <= i < |rs| :: Answer(After(p, call[i])) == Some(rs[i].frame))
  }

  ghost predicate Tracked(p: Pool) { forall f | f in p.free :: f < FRAMES }

  /** Two calls of a run never answer the same frame. */
  lemma AnswersDistinct(p: Pool, i: nat, j: nat)
    requires Tracked(p) && Answer(After(p, i)).Some? && Answer(After(p, j)).Some?
    ensures IsFrame(Answer(After(p, i)).value)
    ensures i != j ==> Answer(After(p, i)) != Answer(After(p, j))
  {
    KthAllocation(p, i);
    KthAllocation(p, j);
    AscendingIsSorted(p.free, i);
    AscendingIsSorted(p.free, j);
  }

  lemma ProvisionedFrames(p: Pool, rs: seq<Request>, call: seq<nat>)
    requires Tracked(p) && Provisioned(p, rs, call)
    ensures AllFrames(rs)
    ensures forall i, j | 0 <= i < j < |rs| :: rs[i].frame != rs[j].frame
  {
    hide Answer, After, Tracked, IsFrame;
    forall i | 0 <= i < |rs| ensures IsFrame(rs[i].frame) { AnswersDistinct(p, call[i], call[i]); }
    forall i, j | 0 <= i < j < |rs| ensures rs[i].frame != rs[j].frame { AnswersDistinct(p, call[i], call[j]); }
  }

  /** A page in the abstract map got its frame from one of the requests for it. */
  lemma {:induction false} PageMapSource(m: Memory, root: int, rs: seq<Request>, page: int) returns (i: nat)
    requires page in PageMap(m, root, rs)
    ensures i < |rs| && Page(rs[i].virt) == page && rs[i].frame == PageMap(m, root, rs)[page]
  {
    var last := |rs| - 1;
    if TableAt(m, root, rs[last].virt, 3).Some? && Page(rs[last].virt) == page {
      i := last;
    } else {
      i := PageMapSource(m, root, rs[..last], page);
    }
  }

  /** After any run of such mappings, distinct pages that it mapped lie in distinct physical frames. */
  lemma FramesNeverShared(m: Memory, root: int, p: Pool, rs: seq<Request>, call: seq<nat>, v: int, w: int)
    requires Unaliased(m, root) && Tracked(p) && Provisioned(p, rs, call)
    requires Page(v) in PageMap(m, root, rs) && Page(w) in PageMap(m, root, rs)
    requires Page(v) != Page(w)
    ensures var m' := MapAll(m, root, rs);
            var a, b := Translate(m', root, v), Translate(m', root, w);
            a.Some? && b.Some? && a.value / 4096 != b.value / 4096
  {
    hide Translate, TableAt, Unaliased, Page, PageMap, MapAll, Provisioned, Tracked, IsFrame;
    ProvisionedFrames(p, rs, call);
    var i := PageMapSource(m, root, rs, Page(v));
    var j := PageMapSource(m, root, rs, Page(w));
    MapPageRefinesPageMap(m, root, rs, v);
    MapPageRefinesPageMap(m, root, rs, w);
    assert IsFrame(rs[i].frame) && IsFrame(rs[j].frame);
    FrameOf(rs[i].frame, v);
    FrameOf(rs[j].frame, w);
    assert i < j ==> rs[i].frame != rs[j].frame;
    assert j < i ==> rs[j].frame != rs[i].frame;
  }

  lemma {:induction false} ConventionalTracked(ds: seq<Descriptor>, count: int)
    ensures Tracked(Pool(Conventional(ds), count))
  {
    if ds != [] { ConventionalTracked(ds[..|ds| - 1], count); }
  }

  /** The same from boot on: the pool is whatever `init` makes of any memory map. */
  lemma FramesNeverSharedAfterInit(
      m: Memory, root: int, ds: seq<Descriptor>, rs: seq<Request>, call: seq<nat>, v: int, w: int)
    requires Unaliased(m, root) && Provisioned(Pool(Conventional(ds), Counted(ds)), rs, call)
    requires Page(v) in PageMap(m, root, rs) && Page(w) in PageMap(m, root, rs) && Page(v) != Page(w)
    ensures var m' := MapAll(m, root, rs);
            var a, b := Translate(m', root, v), Translate(m', root, w);
            a.Some? && b.Some? && a.value / 4096 != b.value / 4096
  {
    ConventionalTracked(ds, Counted(ds));
    FramesNeverShared(m, root, Pool(Conventional(ds), Counted(ds)), rs, call, v, w);
  }

  lemma FrameOf(frame: int, v: int)
    requires IsFrame(frame)
    ensures (frame + v % 4096) / 4096 * 4096 == frame
  {
    Quotient(frame + v % 4096, 4096, frame / 4096, v % 4096);
  }
}
