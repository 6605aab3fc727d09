/**
 The transmit ring: 8 descriptors and one bucket index that every posting site
 shares. A post writes a descriptor, advances the index and writes it to the tail
 register; the NIC fetches while its head differs from the tail register. The
 driver never looks at the head, so a full ring is not noticed.
 */
module TxRing {
  import opened Rings

  type Frame = seq<int>

  const SIZE := 8

  /** The length field has 16 bits. */
  datatype Descriptor = Descriptor(frame: Frame, length: int)

  function Describe(f: Frame): Descriptor { Descriptor(f, |f| % 0x1_0000) }

  /** What a descriptor puts on the wire. */
  function Wire(f: Frame): Frame { f[..|f| % 0x1_0000] }

  datatype Phase = Ready | Written | Bumped

  datatype State = State(
    ring: seq<Frame>, head: int, tail: int,  // the NIC's side; `tail` is the register
    cur: int, phase: Phase,                  // the driver's side
    posted: seq<Frame>,                      // frames written into descriptors
    sent: seq<Frame>)                        // frames the NIC has fetched

  datatype Action = Write(frame: Frame) | Bump | Doorbell | Fetch

  const INIT := State(seq(SIZE, _ => []), 0, 0, 0, Ready, [], [])

  ghost predicate Shape(s: State) { |s.ring| == SIZE && 0 <= s.head < SIZE && 0 <= s.cur < SIZE }

  /** A step that is not enabled changes nothing. */
  function Step(s: State, a: Action): (r: State)
    requires Shape(s)
    ensures Shape(r)
  {
    match a
    case Write(f) =>
      if s.phase == Ready then s.(ring := s.ring[s.cur := Wire(f)], phase := Written, posted := s.posted + [Wire(f)]) else s
    case Bump => if s.phase == Written then s.(cur := (s.cur + 1) % SIZE, phase := Bumped) else s
    case Doorbell => if s.phase == Bumped then s.(tail := s.cur, phase := Ready) else s
    case Fetch =>
      if s.head == s.tail then s
      else s.(sent := s.sent + [s.ring[s.head]], head := (s.head + 1) % SIZE)
  }

  function Run(s: State, acts: seq<Action>): (r: State)
    requires Shape(s)
    ensures Shape(r)
  {
    if acts == [] then s else Step(Run(s, acts[..|acts| - 1]), acts[|acts| - 1])
  }

  function Unfetched(s: State): int { |s.posted| - |s.sent| }

  /** Before each post of the run fewer than 7 frames are unfetched. */
  ghost predicate Paced(s: State, acts: seq<Action>)
    requires Shape(s)
  {
    forall i | 0 <= i < |acts| && acts[i].Write? && Run(s, acts[..i]).phase == Ready :: Unfetched(Run(s, acts[..i])) < 7
  }

  // ---------- the invariant ----------

  /** How many frames the tail register has announced, and how many the index has passed. */
  function Announced(s: State): int { if s.phase == Ready then |s.posted| else |s.posted| - 1 }
  function Passed(s: State): int { if s.phase == Written then |s.posted| - 1 else |s.posted| }

  ghost predicate Inv(s: State) {
    && Shape(s)
    && |s.sent| <= Announced(s) && Unfetched(s) <= 7
    && s.head == Slot(|s.sent|, SIZE) && s.tail == Slot(Announced(s), SIZE) && s.cur == Slot(Passed(s), SIZE)
    && s.sent == s.posted[..|s.sent|]
    && forall n | |s.sent| <= n < |s.posted| :: s.ring[Slot(n, SIZE)] == s.posted[n]
  }

  lemma InitInv()
    ensures Inv(INIT)
  {}

  lemma FetchGuard(s: State)
    requires Inv(s)
    ensures s.head != s.tail <==> |s.sent| < Announced(s)
  {}

  lemma WriteInv(s: State, f: Frame)
    requires Inv(s) && (s.phase == Ready ==> Unfetched(s) < 7)
    ensures Inv(Step(s, Write(f)))
  {
    hide Slot;
    forall n | |s.sent| <= n < |s.posted|
      ensures Slot(n, SIZE) != Slot(|s.posted|, SIZE)
    {
      SlotsApart(n, |s.posted|, SIZE);
    }
  }

  lemma BumpInv(s: State)
    requires Inv(s)
    ensures Inv(Step(s, Bump)) && Inv(Step(s, Doorbell))
  {
    hide Slot;
    NextSlot(|s.posted| - 1, SIZE);
  }

  lemma FetchInv(s: State)
    requires Inv(s)
    ensures Inv(Step(s, Fetch))
    ensures Step(s, Fetch).sent == if |s.sent| < Announced(s) then s.sent + [s.posted[|s.sent|]] else s.sent
  {
    FetchGuard(s);
    hide Slot;
    NextSlot(|s.sent|, SIZE);
  }

  lemma StepInv(s: State, a: Action)
    requires Inv(s) && (a.Write? && s.phase == Ready ==> Unfetched(s) < 7)
    ensures Inv(Step(s, a))
  {
    hide Inv, Step, Unfetched;
    match a
    case Write(f) => WriteInv(s, f);
    case Bump => BumpInv(s);
    case Doorbell => BumpInv(s);
    case Fetch => FetchInv(s);
  }

  lemma {:induction false} RunInv(s: State, acts: seq<Action>)
    requires Inv(s) && Paced(s, acts)
    ensures Inv(Run(s, acts))
  {
    assert Shape(s);
    hide Inv, Step, Unfetched, Shape;
    if acts != [] {
      var last := |acts| - 1;
      var before := acts[..last];
      assert Paced(s, before) by {
        forall i | 0 <= i < |before| && before[i].Write? && Run(s, before[..i]).phase == Ready
          ensures Unfetched(Run(s, before[..i])) < 7
        {
          assert before[..i] == acts[..i] && before[i] == acts[i];
        }
      }
      RunInv(s, before);
      assert acts[last].Write? && Run(s, acts[..last]).phase == Ready ==> Unfetched(Run(s, acts[..last])) < 7;
      StepInv(Run(s, before), acts[last]);
    }
  }

  // ---------- what every paced interleaving guarantees ----------

  /** Frames go out once each, in posting order, and no more than 7 wait. */
  lemma SentInOrder(acts: seq<Action>)
    requires Paced(INIT, acts)
    ensures var s := Run(INIT, acts);
            s.sent <= s.posted && Unfetched(s) <= 7
  {
    InitInv();
    RunInv(INIT, acts);
  }

  /** The descriptor a post overwrites has been fetched already. */
  lemma PostNeverClobbers(acts: seq<Action>)
    requires Paced(INIT, acts) && Run(INIT, acts).phase == Ready
    ensures var s := Run(INIT, acts);
            forall n | |s.sent| <= n < |s.posted| :: Slot(n, SIZE) != s.cur
  {
    InitInv();
    RunInv(INIT, acts);
    var s := Run(INIT, acts);
    forall n | |s.sent| <= n < |s.posted|
      ensures Slot(n, SIZE) != s.cur
    {
      SlotsApart(n, |s.posted|, SIZE);
    }
  }

  function Fetches(n: nat): seq<Action> { seq(n, _ => Fetch) }

  lemma {:induction false} Drain(s: State, n: nat)
    requires Inv(s) && s.phase == Ready && n <= Unfetched(s)
    ensures var r := Run(s, Fetches(n));
            Inv(r) && r.phase == Ready && r.posted == s.posted && |r.sent| == |s.sent| + n
  {
    if n > 0 {
      Drain(s, n - 1);
      assert Fetches(n)[..n - 1] == Fetches(n - 1);
      FetchInv(Run(s, Fetches(n - 1)));
    }
  }

  lemma {:induction false} Stuck(s: State, n: nat)
    requires Shape(s) && s.head == s.tail
    ensures Run(s, Fetches(n)) == s
  {
    if n > 0 {
      Stuck(s, n - 1);
      assert Fetches(n)[..n - 1] == Fetches(n - 1);
    }
  }

  function Post(s: State, f: Frame): (r: State)
    requires Shape(s)
    ensures Shape(r)
  {
    Step(Step(Step(s, Write(f)), Bump), Doorbell)
  }

  lemma PostSteps(s: State, f: Frame)
    requires Inv(s) && s.phase == Ready
    ensures var r := Post(s, f);
            && r.phase == Ready && r.posted == s.posted + [Wire(f)] && r.sent == s.sent
            && (Unfetched(s) < 7 ==> Inv(r))
            && (Unfetched(s) == 7 ==> r.head == r.tail)
  {
    var s1 := Step(s, Write(f));
    var s2 := Step(s1, Bump);
    if Unfetched(s) < 7 {
      WriteInv(s, f);
      BumpInv(s1);
      BumpInv(s2);
    } else {
      NextSlot(|s.posted|, SIZE);
      NextSlot(|s.sent|, SIZE);
      assert |s.posted| + 1 == |s.sent| + SIZE;
    }
  }

  /**
   Exactly when a post is safe. With 7 frames unfetched the tail register comes
   round to the head, the ring looks empty, and no number of fetches sends anything.
   */
  lemma PostIsSentIff(s: State, f: Frame)
    requires Inv(s) && s.phase == Ready
    ensures (exists n :: Run(Post(s, f), Fetches(n)).sent == s.posted + [Wire(f)]) <==> Unfetched(s) < 7
  {
    var r := Post(s, f);
    PostSteps(s, f);
    assert Unfetched(s) <= 7;
    hide Step, Slot, Post;
    if Unfetched(s) < 7 {
      Drain(r, Unfetched(r));
      var done := Run(r, Fetches(Unfetched(r)));
      assert done.sent == done.posted[..|done.posted|] == r.posted;
    } else {
      forall n: nat
        ensures Run(r, Fetches(n)).sent != s.posted + [Wire(f)]
      {
        Stuck(r, n);
      }
    }
  }

  /** The ring after `n` posts that the NIC has not looked at. */
  function Posts(s: State, f: Frame, n: nat): (r: State)
    requires Shape(s)
    ensures Shape(r)
  {
    if n == 0 then s else Post(Posts(s, f, n - 1), f)
  }

  lemma {:induction false} PostsFill(f: Frame, n: nat)
    requires n <= 7
    ensures var s := Posts(INIT, f, n); Inv(s) && s.phase == Ready && |s.posted| == n && s.sent == []
  {
    hide Post, Inv;
    if n == 0 {
      InitInv();
    } else {
      PostsFill(f, n - 1);
      PostSteps(Posts(INIT, f, n - 1), f);
    }
  }

  /** Eight posts in a row: not one of the eight frames ever goes out. */
  lemma EighthPostStalls(f: Frame, fetches: nat)
    ensures var s := Posts(INIT, f, 8); |s.posted| == 8 && Run(s, Fetches(fetches)).sent == []
  {
    hide Post, Step, Posts;
    var s := Posts(INIT, f, 7);
    PostsFill(f, 7);
    PostSteps(s, f);
    LastPost(f, 8);
    Stuck(Post(s, f), fetches);
  }

  lemma LastPost(f: Frame, n: nat)
    requires n > 0
    ensures Posts(INIT, f, n) == Post(Posts(INIT, f, n - 1), f)
  {}

  /** A frame goes out whole exactly when its length fits the 16-bit field. */
  lemma WireIsWhole(f: Frame)
    ensures Wire(f) == f <==> |f| < 0x1_0000
  {
    if |f| >= 0x1_0000 { assert |Wire(f)| < 0x1_0000; }
  }

  // ---------- one post, with fetches inside it ----------

  /** `fetches(k)` descriptors are fetched, if there are that many, before the k-th write of a post. */
  function PostActions(f: Frame, fetches: nat -> nat): seq<Action> {
    (Fetches(fetches(0)) + [Write(f)]) + (Fetches(fetches(1)) + [Bump]) + (Fetches(fetches(2)) + [Doorbell])
  }

  lemma {:induction false} RunConcat(s: State, a: seq<Action>, b: seq<Action>)
    requires Shape(s)
    ensures Run(s, a + b) == Run(Run(s, a), b)
  {
    hide Step;
    if b == [] {
      assert a + b == a;
    } else {
      assert (a + b)[..|a + b| - 1] == a + b[..|b| - 1];
      RunConcat(s, a, b[..|b| - 1]);
    }
  }

  ghost function Turn(s: State, n: nat, a: Action): (r: State)
    requires Shape(s)
    ensures Shape(r)
  {
    Step(Run(s, Fetches(n)), a)
  }

  lemma TurnIsRun(s: State, n: nat, a: Action)
    requires Shape(s)
    ensures Run(s, Fetches(n) + [a]) == Turn(s, n, a)
  {
    assert (Fetches(n) + [a])[..n] == Fetches(n);
  }

  ghost function Posted(s: State, f: Frame, fetches: nat -> nat): (r: State)
    requires Shape(s)
    ensures Shape(r)
  {
    Turn(Turn(Turn(s, fetches(0), Write(f)), fetches(1), Bump), fetches(2), Doorbell)
  }

  lemma PostedIsRun(s: State, f: Frame, fetches: nat -> nat)
    requires Shape(s)
    ensures Run(s, PostActions(f, fetches)) == Posted(s, f, fetches)
  {
    hide Step, Run, Turn, Shape, Fetches;
    var a0, a1, a2 := Fetches(fetches(0)) + [Write(f)], Fetches(fetches(1)) + [Bump], Fetches(fetches(2)) + [Doorbell];
    var s1 := Turn(s, fetches(0), Write(f));
    TurnIsRun(s, fetches(0), Write(f));
    RunConcat(s, a0, a1);
    TurnIsRun(s1, fetches(1), Bump);
    RunConcat(s, a0 + a1, a2);
    TurnIsRun(Turn(s1, fetches(1), Bump), fetches(2), Doorbell);
  }

  /** Fetching changes nothing that the driver owns. */
  lemma {:induction false} FetchesKeep(s: State, n: nat)
    requires Shape(s)
    ensures var t := Run(s, Fetches(n));
            && t.phase == s.phase && t.cur == s.cur && t.posted == s.posted && s.sent <= t.sent
            && (Inv(s) ==> Inv(t))
  {
    if n > 0 {
      FetchesKeep(s, n - 1);
      assert Fetches(n)[..n - 1] == Fetches(n - 1);
      if Inv(s) { FetchInv(Run(s, Fetches(n - 1))); }
    }
  }

  /** A turn of the posting code: the write that is next is made, whatever has been fetched. */
  lemma TurnProceeds(s: State, n: nat, a: Action)
    requires Shape(s)
    ensures var r := Turn(s, n, a);
            && s.sent <= r.sent
            && (s.phase == Ready && a.Write? ==> r.phase == Written && r.posted == s.posted + [Wire(a.frame)])
            && (s.phase == Written && a == Bump ==> r.phase == Bumped && r.posted == s.posted)
            && (s.phase == Bumped && a == Doorbell ==> r.phase == Ready && r.posted == s.posted)
            && (Inv(s) && (a.Write? ==> Unfetched(s) < 7) ==> Inv(r))
  {
    FetchesKeep(s, n);
    hide Inv;
    if Inv(s) && (a.Write? ==> Unfetched(s) < 7) { StepInv(Run(s, Fetches(n)), a); }
  }

  /** A post with fetches going on inside it puts its frame last in line, and keeps the ring in order if it was paced. */
  lemma PostInterleaved(s: State, f: Frame, fetches: nat -> nat)
    requires Shape(s) && s.phase == Ready
    ensures var r := Run(s, PostActions(f, fetches));
            && r.phase == Ready && r.posted == s.posted + [Wire(f)] && s.sent <= r.sent
            && (Inv(s) && Unfetched(s) < 7 ==> Inv(r))
  {
    hide Inv, Turn, Step, Run, Shape, PostActions, Unfetched;
    PostedIsRun(s, f, fetches);
    var s1 := Turn(s, fetches(0), Write(f));
    TurnProceeds(s, fetches(0), Write(f));
    TurnProceeds(s1, fetches(1), Bump);
    TurnProceeds(Turn(s1, fetches(1), Bump), fetches(2), Doorbell);
  }

  // ---------- the driver's code ----------

  class Driver {
    const ring: array<Frame>
    var head: int
    var tail: int
    var cur: int
    ghost var phase: Phase
    ghost var posted: seq<Frame>
    ghost var sent: seq<Frame>

    constructor ()
      ensures fresh(ring) && View() == INIT && Inv(View())
    {
      ring := new Frame[SIZE](_ => []);
      head, tail, cur, phase := 0, 0, 0, Ready;
      posted, sent := [], [];
      new;
      assert ring[..] == INIT.ring;
      InitInv();
    }

    ghost function View(): State
      reads this, ring
    {
      State(ring[..], head, tail, cur, phase, posted, sent)
    }

    /** The NIC's own steps. */
    method FetchSome(n: nat)
      requires Shape(View())
      modifies this`head, this`sent
      ensures Shape(View()) && View() == Run(old(View()), Fetches(n))
    {
      ghost var s := View();
      for i := 0 to n
        invariant Shape(View()) && View() == Run(s, Fetches(i))
      {
        assert Fetches(i + 1)[..i] == Fetches(i);
        if head != tail {
          sent := sent + [ring[head]];
          head := (head + 1) % SIZE;
        }
      }
    }

    method WriteDescriptor(frame: Frame)
      requires Shape(View()) && phase == Ready
      modifies this`phase, this`posted, ring
      ensures View() == Step(old(View()), Write(frame)) && phase == Written
    {
      var d := Describe(frame);
      ring[cur] := d.frame[..d.length];
      posted := posted + [d.frame[..d.length]];
      phase := Written;
    }

    method BumpIndex()
      requires Shape(View()) && phase == Written
      modifies this`phase, this`cur
      ensures View() == Step(old(View()), Bump) && phase == Bumped
    {
      cur := (cur + 1) % SIZE;
      phase := Bumped;
    }

    method WriteTailRegister()
      requires Shape(View()) && phase == Bumped
      modifies this`phase, this`tail
      ensures View() == Step(old(View()), Doorbell) && phase == Ready
    {
      tail := cur;
      phase := Ready;
    }

    /** The posting code, the same in `inject_frame`, `arp_request` and the ARP reply, with whatever the NIC fetches meanwhile. */
    method PostFrame(frame: Frame, fetches: nat -> nat)
      requires Shape(View()) && phase == Ready
      modifies this, ring
      ensures Shape(View()) && phase == Ready
      ensures View() == Run(old(View()), PostActions(frame, fetches))
    {
      ghost var s := View();
      PostedIsRun(s, frame, fetches);
      FetchesKeep(s, fetches(0));
      hide Step, Run, Shape, Inv;
      FetchSome(fetches(0));
      WriteDescriptor(frame);
      FetchesKeep(View(), fetches(1));
      FetchSome(fetches(1));
      BumpIndex();
      FetchesKeep(View(), fetches(2));
      FetchSome(fetches(2));
      WriteTailRegister();
    }
  }
}
