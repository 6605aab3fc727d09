/**
 The receive ring: the NIC and the driver share 32 descriptors. The NIC fills
 the descriptor at `head` while `head != tail`; `poll` tests the descriptor at
 `cur`, processes it, clears its status, advances, and only then hands the
 bucket back by writing `tail`. NIC steps may fall between any two of these.
 */
module RxRing {
  import opened Rings

  type Packet = seq<int>

  const SIZE := 32

  datatype Descriptor = Descriptor(done: bool, packet: Packet)

  /** Where the driver is inside `poll`. */
  datatype Phase = Idle | Holding | Processed | Cleared | Advanced(bucket: int)

  datatype State = State(
    ring: seq<Descriptor>, head: int, tail: int,
    cur: int, phase: Phase,
    accepted: seq<Packet>,   // packets the NIC has put into the ring
    delivered: seq<Packet>)  // packets the driver has processed

  datatype Action = Receive(packet: Packet) | Test | Process | Clear | Advance | WriteTail

  const INIT := State(seq(SIZE, _ => Descriptor(false, [])), 0, SIZE - 1, 0, Idle, [], [])

  ghost predicate Shape(s: State) {
    |s.ring| == SIZE && 0 <= s.head < SIZE && 0 <= s.cur < SIZE
  }

  /** A step that is not enabled changes nothing; a packet that finds the ring full is dropped. */
  function Step(s: State, a: Action): (r: State)
    requires Shape(s)
    ensures Shape(r)
  {
    match a
    case Receive(p) =>
      if s.head == s.tail then s
      else s.(ring := s.ring[s.head := Descriptor(true, p)], head := (s.head + 1) % SIZE, accepted := s.accepted + [p])
    case Test => if s.phase == Idle && s.ring[s.cur].done then s.(phase := Holding) else s
    case Process =>
      if s.phase == Holding then s.(phase := Processed, delivered := s.delivered + [s.ring[s.cur].packet]) else s
    case Clear =>
      if s.phase == Processed then s.(phase := Cleared, ring := s.ring[s.cur := s.ring[s.cur].(done := false)]) else s
    case Advance =>
      if s.phase == Cleared then s.(phase := Advanced(s.cur), cur := (s.cur + 1) % SIZE) else s
    case WriteTail => if s.phase.Advanced? then s.(phase := Idle, tail := s.phase.bucket) else s
  }

  function Run(s: State, acts: seq<Action>): (r: State)
    requires Shape(s)
    ensures Shape(r)
  {
    if acts == [] then s else Step(Run(s, acts[..|acts| - 1]), acts[|acts| - 1])
  }

  // ---------- the invariant ----------

  /** How many buckets the driver has moved past, and how many it has handed back. */
  function Passed(s: State): int {
    if s.phase == Processed || s.phase == Cleared then |s.delivered| - 1 else |s.delivered|
  }

  function Released(s: State): int {
    if s.phase == Idle || s.phase == Holding then |s.delivered| else |s.delivered| - 1
  }

  ghost predicate Inv(s: State) {
    && Shape(s)
    && 0 <= Released(s) && |s.delivered| <= |s.accepted| <= Released(s) + SIZE - 1
    && s.head == Slot(|s.accepted|, SIZE) && s.tail == Slot(Released(s) - 1, SIZE) && s.cur == Slot(Passed(s), SIZE)
    && s.delivered == s.accepted[..|s.delivered|]
    && (forall n | |s.delivered| <= n < |s.accepted| :: s.ring[Slot(n, SIZE)] == Descriptor(true, s.accepted[n]))
    && (forall n | |s.accepted| <= n < Released(s) + SIZE :: !s.ring[Slot(n, SIZE)].done)
    && (s.phase == Holding ==> |s.delivered| < |s.accepted|)
    && (s.phase == Cleared || s.phase.Advanced? ==> !s.ring[Slot(|s.delivered| - 1, SIZE)].done)
    && (s.phase.Advanced? ==> s.phase.bucket == Slot(|s.delivered| - 1, SIZE))
  }

  lemma InitInv()
    ensures Inv(INIT)
  {}

  /** The NIC's own test keeps it inside the released buckets. */
  lemma FillGuard(s: State)
    requires Inv(s)
    ensures s.head != s.tail <==> |s.accepted| < Released(s) + 31
  {
    hide Slot;
    var last := Released(s) - 1 + SIZE;
    NextSlot(Released(s) - 1, SIZE);
    if |s.accepted| < last { SlotsApart(|s.accepted|, last, SIZE); }
  }

  lemma ReceiveInv(s: State, p: Packet)
    requires Inv(s)
    ensures Inv(Step(s, Receive(p)))
  {
    FillGuard(s);
    hide Slot;
    if s.head != s.tail {
      var N := |s.accepted|;
      NextSlot(N, SIZE);
      forall n | Released(s) <= n < Released(s) + SIZE && n != N
        ensures Slot(n, SIZE) != Slot(N, SIZE)
      {
        if n < N { SlotsApart(n, N, SIZE); } else { SlotsApart(N, n, SIZE); }
      }
    }
  }

  lemma TestInv(s: State)
    requires Inv(s)
    ensures Inv(Step(s, Test))
  {
    hide Slot;
    assert |s.delivered| == |s.accepted| && s.phase == Idle ==> !s.ring[Slot(|s.accepted|, SIZE)].done;
  }

  lemma ProcessInv(s: State)
    requires Inv(s)
    ensures Inv(Step(s, Process))
  {
    hide Slot;
  }

  lemma ClearInv(s: State)
    requires Inv(s)
    ensures Inv(Step(s, Clear))
  {
    hide Slot;
    if s.phase == Processed {
      var c := |s.delivered| - 1;
      forall n | c < n < c + SIZE
        ensures Slot(n, SIZE) != Slot(c, SIZE)
      {
        SlotsApart(c, n, SIZE);
      }
    }
  }

  lemma AdvanceInv(s: State)
    requires Inv(s)
    ensures Inv(Step(s, Advance))
  {
    hide Slot;
    NextSlot(|s.delivered| - 1, SIZE);
  }

  lemma WriteTailInv(s: State)
    requires Inv(s)
    ensures Inv(Step(s, WriteTail))
  {
    hide Slot;
    NextSlot(|s.delivered| - 1, SIZE);
  }

  lemma StepInv(s: State, a: Action)
    requires Inv(s)
    ensures Inv(Step(s, a))
  {
    hide Inv, Step;
    match a
    case Receive(p) => ReceiveInv(s, p);
    case Test => TestInv(s);
    case Process => ProcessInv(s);
    case Clear => ClearInv(s);
    case Advance => AdvanceInv(s);
    case WriteTail => WriteTailInv(s);
  }

  lemma {:induction false} RunInv(s: State, acts: seq<Action>)
    requires Inv(s)
    ensures Inv(Run(s, acts))
  {
    if acts != [] {
      RunInv(s, acts[..|acts| - 1]);
      StepInv(Run(s, acts[..|acts| - 1]), acts[|acts| - 1]);
    }
  }

  // ---------- what every interleaving guarantees ----------

  /** Exactly once, in order of arrival, never more than 31 behind. */
  lemma DeliveredInOrder(acts: seq<Action>)
    ensures var s := Run(INIT, acts);
            && s.delivered <= s.accepted
            && |s.accepted| - |s.delivered| <= 31
  {
    InitInv();
    RunInv(INIT, acts);
  }

  /** The bucket the NIC writes next is free: nothing undelivered is in it and the driver is not using it. */
  lemma NicNeverClobbers(acts: seq<Action>)
    ensures var s := Run(INIT, acts);
            s.head != s.tail ==>
            && !s.ring[s.head].done
            && (forall n | |s.delivered| <= n < |s.accepted| :: Slot(n, SIZE) != s.head)
            && (s.phase != Idle && !s.phase.Advanced? ==> s.head != s.cur)
            && (s.phase.Advanced? ==> s.head != s.phase.bucket)
  {
    InitInv();
    RunInv(INIT, acts);
    var s := Run(INIT, acts);
    FillGuard(s);
    if s.head != s.tail {
      var N := |s.accepted|;
      forall n | |s.delivered| - 1 <= n < N
        ensures n >= Released(s) ==> Slot(n, SIZE) != s.head
      {
        if n >= Released(s) { SlotsApart(n, N, SIZE); }
      }
    }
  }

  // ---------- one poll, with packets arriving inside it ----------

  function Receives(ps: seq<Packet>): (acts: seq<Action>)
    ensures |acts| == |ps|
  {
    seq(|ps|, i requires 0 <= i < |ps| => Receive(ps[i]))
  }

  /** `traffic(k)` arrives before the k-th sub-step; a poll that finds nothing ends after its test. */
  function PollActions(traffic: nat -> seq<Packet>, found: bool): seq<Action> {
    var test := Receives(traffic(0)) + [Test];
    if !found then test
    else test + (Receives(traffic(1)) + [Process]) + (Receives(traffic(2)) + [Clear])
              + (Receives(traffic(3)) + [Advance]) + (Receives(traffic(4)) + [WriteTail])
  }

  lemma {:induction false} RunConcat(s: State, a: seq<Action>, b: seq<Action>)
    requires Shape(s)
    ensures Run(s, a + b) == Run(Run(s, a), b)
  {
    hide Step;
    if b == [] {
      assert a + b == a;
    } else {
      assert (a + b)[..|a + b| - 1] == a + b[..|b| - 1];
      RunConcat(s, a, b[..|b| - 1]);
    }
  }

  /** Packets arrive and change nothing that the driver owns. */
  lemma {:induction false} Arrivals(s: State, ps: seq<Packet>)
    requires Inv(s)
    ensures Shape(s)
    ensures var t := Run(s, Receives(ps));
            Inv(t) && t.phase == s.phase && t.delivered == s.delivered && s.accepted <= t.accepted
  {
    hide Inv, Shape;
    InvShape(s);
    if ps != [] {
      var before, p := ps[..|ps| - 1], ps[|ps| - 1];
      assert Receives(ps)[..|ps| - 1] == Receives(before);
      Arrivals(s, before);
      StepInv(Run(s, Receives(before)), Receive(p));
    }
  }

  /** Packets arrive, then the driver makes a sub-step. */
  ghost function Turn(s: State, ps: seq<Packet>, a: Action): (r: State)
    requires Shape(s)
    ensures Shape(r)
  {
    Step(Run(s, Receives(ps)), a)
  }

  lemma TurnIsRun(s: State, ps: seq<Packet>, a: Action)
    requires Shape(s)
    ensures Run(s, Receives(ps) + [a]) == Turn(s, ps, a)
  {
    assert (Receives(ps) + [a])[..|ps|] == Receives(ps);
  }

  /** The sub-step of `poll` that comes next. */
  function Following(p: Phase): Action {
    match p
    case Idle => Test
    case Holding => Process
    case Processed => Clear
    case Cleared => Advance
    case Advanced(_) => WriteTail
  }

  /** A state one sub-step further on. */
  ghost predicate Led(s: State, r: State) {
    && Inv(r) && s.accepted <= r.accepted
    && (s.phase == Holding ==> r.phase == Processed && |r.delivered| == |s.delivered| + 1)
    && (s.phase == Processed ==> r.phase == Cleared && r.delivered == s.delivered)
    && (s.phase == Cleared ==> r.phase.Advanced? && r.delivered == s.delivered)
    && (s.phase.Advanced? ==> r.phase == Idle && r.delivered == s.delivered)
  }

  lemma StepLeads(t: State)
    requires Inv(t)
    ensures Shape(t) && Led(t, Step(t, Following(t.phase)))
  {
    hide Inv;
    InvShape(t);
    StepInv(t, Following(t.phase));
  }

  /** The sub-step that follows in `poll` is enabled whatever has arrived. */
  lemma Proceeds(s: State, ps: seq<Packet>)
    requires Inv(s)
    ensures Shape(s) && Led(s, Turn(s, ps, Following(s.phase)))
  {
    hide Inv, Step, Shape, Run, Receives;
    Arrivals(s, ps);
    StepLeads(Run(s, Receives(ps)));
  }

  ghost predicate Pending(s: State) { |s.delivered| < |s.accepted| }

  /** The status bit at the driver's index says whether anything is waiting. */
  lemma TestFinds(s: State)
    requires Inv(s) && s.phase == Idle
    ensures s.ring[s.cur].done <==> Pending(s)
  {
    hide Slot;
    assert |s.delivered| == |s.accepted| ==> s.cur == Slot(|s.accepted|, SIZE);
  }

  lemma DeliveredIsPrefix(s: State)
    requires Inv(s)
    ensures s.delivered <= s.accepted
  {}

  lemma InvShape(s: State)
    requires Inv(s)
    ensures Shape(s)
  {}

  ghost function Found(s: State, traffic: nat -> seq<Packet>): bool
    requires Shape(s)
  {
    Pending(Run(s, Receives(traffic(0))))
  }

  /** The five turns of a poll. */
  ghost function Polled(s: State, traffic: nat -> seq<Packet>): State
    requires Shape(s)
  {
    var t := Turn(s, traffic(0), Test);
    if !Found(s, traffic) then t
    else Turn(Turn(Turn(Turn(t, traffic(1), Process), traffic(2), Clear), traffic(3), Advance), traffic(4), WriteTail)
  }

  lemma PolledIsRun(s: State, traffic: nat -> seq<Packet>)
    requires Shape(s)
    ensures Run(s, PollActions(traffic, Found(s, traffic))) == Polled(s, traffic)
  {
    hide Step, Run, Turn, Shape, Found, Receives;
    var a0, a1, a2 := Receives(traffic(0)) + [Test], Receives(traffic(1)) + [Process], Receives(traffic(2)) + [Clear];
    var a3, a4 := Receives(traffic(3)) + [Advance], Receives(traffic(4)) + [WriteTail];
    var s1 := Turn(s, traffic(0), Test);
    var s2 := Turn(s1, traffic(1), Process);
    var s3 := Turn(s2, traffic(2), Clear);
    TurnIsRun(s, traffic(0), Test);
    if Found(s, traffic) {
      RunConcat(s, a0, a1);
      TurnIsRun(s1, traffic(1), Process);
      RunConcat(s, a0 + a1, a2);
      TurnIsRun(s2, traffic(2), Clear);
      RunConcat(s, a0 + a1 + a2, a3);
      TurnIsRun(s3, traffic(3), Advance);
      RunConcat(s, a0 + a1 + a2 + a3, a4);
      TurnIsRun(Turn(s3, traffic(3), Advance), traffic(4), WriteTail);
    }
  }

  lemma TestTurn(s: State, ps: seq<Packet>)
    requires Inv(s) && s.phase == Idle
    ensures var t, r := Run(s, Receives(ps)), Turn(s, ps, Test);
            && Inv(t) && Inv(r) && t.phase == Idle && s.accepted <= t.accepted && r.delivered == s.delivered == t.delivered && r.accepted == t.accepted
            && if Pending(t) then r.phase == Holding else r == t
  {
    hide Inv, Run, Receives;
    Arrivals(s, ps);
    var t := Run(s, Receives(ps));
    InvShape(t);
    StepInv(t, Test);
    TestFinds(t);
  }

  /** A poll keeps the invariant and delivers one packet if it found one. */
  lemma PolledResult(s: State, traffic: nat -> seq<Packet>)
    requires Inv(s) && s.phase == Idle
    ensures Shape(s)
    ensures var r := Polled(s, traffic);
            && Inv(r) && r.phase == Idle
            && var t := Run(s, Receives(traffic(0)));
               if Found(s, traffic) then |r.delivered| == |s.delivered| + 1 && t.accepted <= r.accepted else r == t
  {
    hide Inv, Turn, Run, Step, Shape, Receives;
    InvShape(s);
    TestTurn(s, traffic(0));
    if Found(s, traffic) {
      var s1 := Turn(s, traffic(0), Test);
      Proceeds(s1, traffic(1));
      var s2 := Turn(s1, traffic(1), Process);
      Proceeds(s2, traffic(2));
      var s3 := Turn(s2, traffic(2), Clear);
      Proceeds(s3, traffic(3));
      Proceeds(Turn(s3, traffic(3), Advance), traffic(4));
    }
  }

  /** Of two prefixes of a growing sequence, one longer by one, the longer adds the element that was next. */
  lemma NextOfPrefix(d: seq<Packet>, a: seq<Packet>, d': seq<Packet>, a': seq<Packet>)
    requires d <= a <= a' && d' <= a'
    ensures |d'| == |d| + 1 && |d| < |a| ==> d' == d + [a[|d|]]
  {}

  lemma PollFromInv(s: State, traffic: nat -> seq<Packet>)
    requires Inv(s) && s.phase == Idle
    ensures Shape(s)
    ensures var t := Run(s, Receives(traffic(0)));
            var found := |s.delivered| < |t.accepted|;
            var r := Run(s, PollActions(traffic, found));
            if found then r.phase == Idle && r.delivered == s.delivered + [t.accepted[|s.delivered|]] && t.accepted <= r.accepted
            else r == t
  {
    hide Inv, Run, Turn, Polled, Shape, Receives, PollActions;
    PolledResult(s, traffic);
    TestTurn(s, traffic(0));
    PolledIsRun(s, traffic);
    var t := Run(s, Receives(traffic(0)));
    DeliveredIsPrefix(t);
    DeliveredIsPrefix(Polled(s, traffic));
    NextOfPrefix(t.delivered, t.accepted, Polled(s, traffic).delivered, Polled(s, traffic).accepted);
  }

  /**
   A poll during which packets keep arriving delivers the oldest packet that was waiting at its
   test, and leaves everything to the arrivals when none was.
   */
  lemma PollDelivers(acts: seq<Action>, traffic: nat -> seq<Packet>)
    requires Run(INIT, acts).phase == Idle
    ensures var s := Run(INIT, acts);
            var t := Run(s, Receives(traffic(0)));
            var found := |s.delivered| < |t.accepted|;
            var r := Run(s, PollActions(traffic, found));
            if found then r.phase == Idle && r.delivered == s.delivered + [t.accepted[|s.delivered|]] && t.accepted <= r.accepted
            else r == t
  {
    hide Inv, Run, PollActions, Receives;
    InitInv();
    RunInv(INIT, acts);
    PollFromInv(Run(INIT, acts), traffic);
  }

  // ---------- the driver's code ----------

  class Driver {
    const ring: array<Descriptor>
    var head: int
    var tail: int
    var cur: int
    ghost var phase: Phase
    ghost var accepted: seq<Packet>
    var delivered: seq<Packet>  // what the packet handlers were given

    constructor ()
      ensures fresh(ring) && View() == INIT && Inv(View())
    {
      ring := new Descriptor[SIZE](_ => Descriptor(false, []));
      head, tail, cur, phase := 0, SIZE - 1, 0, Idle;
      accepted, delivered := [], [];
      new;
      assert ring[..] == INIT.ring;
      InitInv();
    }

    ghost function View(): State
      reads this, ring
    {
      State(ring[..], head, tail, cur, phase, accepted, delivered)
    }

    /** The NIC's own steps. */
    method Arrive(ps: seq<Packet>)
      requires Shape(View())
      modifies this`head, this`accepted, ring
      ensures Shape(View()) && View() == Run(old(View()), Receives(ps))
    {
      ghost var s := View();
      assert Receives(ps[..0]) == [];
      for i := 0 to |ps|
        invariant Shape(View()) && View() == Run(s, Receives(ps[..i]))
      {
        assert Receives(ps[..i + 1])[..i] == Receives(ps[..i]);
        if head != tail {
          ring[head] := Descriptor(true, ps[i]);
          head := (head + 1) % SIZE;
          accepted := accepted + [ps[i]];
        }
      }
      assert ps[..|ps|] == ps;
    }

    method ReadStatus() returns (done: bool)
      requires Shape(View())
      modifies this`phase
      ensures View() == Step(old(View()), Test)
      ensures old(phase) == Idle ==> (done <==> phase == Holding)
    {
      done := ring[cur].done;
      phase := if phase == Idle && done then Holding else phase;
    }

    method ProcessPacket()
      requires Shape(View()) && phase == Holding
      modifies this`phase, this`delivered
      ensures View() == Step(old(View()), Process)
    {
      delivered := delivered + [ring[cur].packet];
      phase := Processed;
    }

    method ClearStatus()
      requires Shape(View()) && phase == Processed
      modifies this`phase, ring
      ensures View() == Step(old(View()), Clear)
    {
      ring[cur] := ring[cur].(done := false);
      phase := Cleared;
    }

    method AdvanceBucket() returns (bucket: int)
      requires Shape(View()) && phase == Cleared
      modifies this`phase, this`cur
      ensures View() == Step(old(View()), Advance) && phase == Advanced(bucket)
    {
      bucket := cur;
      cur := (cur + 1) % SIZE;
      phase := Advanced(bucket);
    }

    method WriteTailRegister(bucket: int)
      requires Shape(View()) && phase == Advanced(bucket)
      modifies this`phase, this`tail
      ensures View() == Step(old(View()), WriteTail)
    {
      tail := bucket;
      phase := Idle;
    }

    /** One call of `poll`, with whatever the NIC does before each of its sub-steps. */
    method Poll(traffic: nat -> seq<Packet>) returns (found: bool)
      requires Inv(View()) && phase == Idle
      modifies this, ring
      ensures Inv(View()) && phase == Idle
      ensures found <==> Found(old(View()), traffic)
      ensures View() == Run(old(View()), PollActions(traffic, found))
    {
      ghost var s := View();
      InvShape(s);
      PolledResult(s, traffic);
      PolledIsRun(s, traffic);
      TestTurn(s, traffic(0));
      hide Inv, Run, Step, Shape;
      Arrive(traffic(0));
      found := ReadStatus();
      if found {
        Deliver(traffic);
      }
    }

    /** The rest of a poll that found a packet. */
    method Deliver(traffic: nat -> seq<Packet>)
      requires Inv(View()) && phase == Holding
      modifies this, ring
      ensures Shape(old(View()))
      ensures View() == Turn(Turn(Turn(Turn(old(View()), traffic(1), Process), traffic(2), Clear), traffic(3), Advance), traffic(4), WriteTail)
    {
      hide Inv, Run, Step, Shape;
      InvShape(View());
      Proceeds(View(), traffic(1));
      Arrivals(View(), traffic(1));
      Arrive(traffic(1));
      ProcessPacket();
      Proceeds(View(), traffic(2));
      Arrivals(View(), traffic(2));
      InvShape(View());
      Arrive(traffic(2));
      ClearStatus();
      Proceeds(View(), traffic(3));
      Arrivals(View(), traffic(3));
      InvShape(View());
      Arrive(traffic(3));
      var bucket := AdvanceBucket();
      Proceeds(View(), traffic(4));
      Arrivals(View(), traffic(4));
      InvShape(View());
      Arrive(traffic(4));
      WriteTailRegister(bucket);
    }
  }
}
