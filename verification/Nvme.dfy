/**
 The NVMe I/O queue pair: 16 submission and 16 completion slots shared with an
 in-order controller that inverts its phase tag on every pass over the completion
 queue. The driver clears a completion slot before it submits, always waits for a
 phase bit of 1, and gives up after a bounded wait.
 */
module Nvme {
  import opened Arithmetic
  import opened Rings

  type Sector = s: seq<int> | |s| == 512 witness seq(512, _ => 0)
  type Disk = int -> Sector

  const SIZE := 16
  const TWO32 := 0x1_0000_0000

  datatype Command = Command(cdw0: int, nsid: int, prp1: int, cdw10: int, cdw11: int, cdw12: int)

  // 0x02 | (cid << 16), lba & 0xFFFFFFFF and lba >> 32
  function ReadCommand(lba: int, buffer: int, cid: int): Command {
    Command(0x02 + 0x1_0000 * cid, 1, buffer, lba % TWO32, lba / TWO32, 0)
  }

  /** The block that a controller reads for a command. */
  function Block(c: Command): int { c.cdw11 * TWO32 + c.cdw10 }

  lemma BlockIsLba(lba: int, buffer: int, cid: int)
    ensures Block(ReadCommand(lba, buffer, cid)) == lba && ReadCommand(lba, buffer, cid).prp1 == buffer
  {}

  const BLANK: Sector := seq(512, _ => 0)

  /** Where the driver is inside `read_sector`. */
  datatype Phase = Idle | Cleared | Written | Waiting | Left(seen: bool)

  datatype State = State(
    tail: int, head: int, phase: Phase,                          // driver: iosq_tail, iocq_head
    sq: seq<Command>, cq: seq<int>, doorbell: int,               // shared: slots, status words, SQ tail doorbell
    fetch: int, held: seq<Command>, post: int, tag: int,         // controller: SQ head, commands in progress, CQ tail, phase tag
    buffers: map<int, Sector>,                                   // memory that reads land in, one fresh buffer per read
    lbas: seq<int>, completed: nat)                              // the LBA of every read so far; completions posted

  datatype Action =
    | Clear(lba: int) | Submit | RingDoorbell | See | GiveUp | Acknowledge  // driver
    | Fetch | Transfer(job: nat, lo: nat, hi: nat) | Complete               // controller

  const INIT := State(0, 0, Idle, seq(SIZE, _ => Command(0, 0, 0, 0, 0, 0)), seq(SIZE, _ => 0), 0, 0, [], 0, 1, map[], [], 0)

  ghost predicate Shape(s: State) {
    && |s.sq| == SIZE && |s.cq| == SIZE
    && 0 <= s.tail < SIZE && 0 <= s.head < SIZE && 0 <= s.fetch < SIZE && 0 <= s.post < SIZE
    && (s.phase != Idle ==> |s.lbas| > 0)
  }

  /** Bytes lo to hi of a block arrive in a buffer. */
  function WithBytes(buffers: map<int, Sector>, b: int, block: Sector, lo: nat, hi: nat): map<int, Sector>
    requires b in buffers && lo <= hi <= 512
  {
    buffers[b := buffers[b][..lo] + block[lo..hi] + buffers[b][hi..]]
  }

  /** The whole block of the oldest command in progress is in its buffer. */
  predicate Transferred(disk: Disk, s: State)
    requires s.held != []
  {
    var c := s.held[0];
    c.prp1 in s.buffers && s.buffers[c.prp1] == disk(Block(c))
  }

  /** The status word written with the current tag, and the post index moved on; the tag inverts at the end of a pass. */
  function Posted(s: State): (r: State)
    requires Shape(s) && s.held != []
    ensures Shape(r)
  {
    s.(held := s.held[1..], cq := s.cq[s.post := s.tag],
       post := (s.post + 1) % SIZE, tag := if s.post + 1 == SIZE then 1 - s.tag else s.tag,
       completed := s.completed + 1)
  }

  /**
   A step that is not enabled changes nothing. The controller moves the data of its commands in any
   pieces and any order, and posts the completion of a command once all its data is in place.
   */
  function Step(disk: Disk, s: State, a: Action): (r: State)
    requires Shape(s)
    ensures Shape(r)
  {
    match a
    case Clear(lba) =>
      if s.phase == Idle
      then s.(phase := Cleared, cq := s.cq[s.tail := 0], lbas := s.lbas + [lba], buffers := s.buffers[|s.lbas| := BLANK])
      else s
    case Submit =>
      if s.phase == Cleared
      then s.(phase := Written, sq := s.sq[s.tail := ReadCommand(s.lbas[|s.lbas| - 1], |s.lbas| - 1, s.tail)])
      else s
    case RingDoorbell =>
      if s.phase == Written then s.(phase := Waiting, tail := (s.tail + 1) % SIZE, doorbell := (s.tail + 1) % SIZE) else s
    case See => if s.phase == Waiting && s.cq[s.head] % 2 == 1 then s.(phase := Left(true)) else s
    case GiveUp => if s.phase == Waiting then s.(phase := Left(false)) else s
    case Acknowledge => if s.phase.Left? then s.(phase := Idle, head := (s.head + 1) % SIZE) else s
    case Fetch =>
      if s.fetch == s.doorbell then s
      else s.(held := s.held + [s.sq[s.fetch]], fetch := (s.fetch + 1) % SIZE)
    case Transfer(job, lo, hi) =>
      if job < |s.held| && s.held[job].prp1 in s.buffers && lo <= hi <= 512
      then s.(buffers := WithBytes(s.buffers, s.held[job].prp1, disk(Block(s.held[job])), lo, hi))
      else s
    case Complete => if s.held == [] || !Transferred(disk, s) then s else Posted(s)
  }

  function Run(disk: Disk, s: State, acts: seq<Action>): (r: State)
    requires Shape(s)
    ensures Shape(r)
  {
    if acts == [] then s else Step(disk, Run(disk, s, acts[..|acts| - 1]), acts[|acts| - 1])
  }

  /** The words of the command that a read submits: a read of one block, numbered by its slot, from the LBA in two halves. */
  lemma SubmittedCommand(disk: Disk, s: State)
    requires Shape(s) && s.phase == Cleared
    ensures var c, lba := Step(disk, s, Submit).sq[s.tail], s.lbas[|s.lbas| - 1];
            && c.cdw0 % 0x1_0000 == 0x02 && c.cdw0 / 0x1_0000 == s.tail && c.nsid == 1 && c.cdw12 == 0 && c.prp1 == |s.lbas| - 1
            && 0 <= c.cdw10 < 0x1_0000_0000 && c.cdw10 + 0x1_0000_0000 * c.cdw11 == lba
            && (0 <= lba < 0x1_0000_0000_0000_0000 ==> 0 <= c.cdw11 < 0x1_0000_0000)
  {
    Quotient(0x02 + 0x1_0000 * s.tail, 0x1_0000, s.tail, 0x02);
  }

  // ---------- the two indices ----------

  /** The tail moves when the doorbell rings, the head when the completion is acknowledged. */
  ghost predicate IndicesAgree(s: State) {
    Shape(s) && if s.phase == Waiting || s.phase.Left? then s.tail == (s.head + 1) % SIZE else s.tail == s.head
  }

  lemma StepIndices(disk: Disk, s: State, a: Action)
    requires IndicesAgree(s)
    ensures IndicesAgree(Step(disk, s, a))
  {}

  /** In every run whatever, tail and head are equal between reads. */
  lemma {:induction false} TailEqualsHead(disk: Disk, acts: seq<Action>)
    ensures var s := Run(disk, INIT, acts);
            IndicesAgree(s) && (s.phase == Idle ==> s.tail == s.head)
  {
    if acts != [] {
      hide Step;
      TailEqualsHead(disk, acts[..|acts| - 1]);
      StepIndices(disk, Run(disk, INIT, acts[..|acts| - 1]), acts[|acts| - 1]);
    }
  }

  // ---------- the invariant ----------

  /** The phase tag of the n-th completion: 1 on the first pass over the queue, 0 on the second, and so on. */
  function Tag(n: int): int { if n / SIZE % 2 == 0 then 1 else 0 }

  lemma NextTag(n: nat)
    ensures Tag(n + 1) == if Slot(n, SIZE) + 1 == SIZE then 1 - Tag(n) else Tag(n)
  {
    var q, r := n / SIZE, n % SIZE;
    if r + 1 == SIZE {
      Quotient(n + 1, SIZE, q + 1, 0);
    } else {
      Quotient(n + 1, SIZE, q, r + 1);
    }
  }

  function CommandOf(s: State, n: int): Command
    requires 0 <= n < |s.lbas|
  {
    ReadCommand(s.lbas[n], n, Slot(n, SIZE))
  }

  /** How many reads the doorbell has announced, how many the driver has begun to write, how many it has ended. */
  function Announced(s: State): int { if s.phase == Cleared || s.phase == Written then |s.lbas| - 1 else |s.lbas| }
  function WrittenUp(s: State): int { if s.phase == Cleared then |s.lbas| - 1 else |s.lbas| }
  function Ended(s: State): int { if s.phase == Idle then |s.lbas| else |s.lbas| - 1 }
  function Fetched(s: State): int { s.completed + |s.held| }

  function Unfinished(s: State): int { |s.lbas| - s.completed }

  /** A buffer in which some bytes of the block have arrived and the others are still zero. */
  ghost predicate Partial(buffer: Sector, block: Sector) {
    forall i | 0 <= i < 512 :: buffer[i] == block[i] || buffer[i] == 0
  }

  /** Where every index and register stands, given the counts. */
  ghost predicate Counters(s: State) {
    && Fetched(s) <= Announced(s) && Unfinished(s) <= 15
    && s.tail == Slot(Announced(s), SIZE) && s.doorbell == s.tail && s.head == Slot(Ended(s), SIZE)
    && s.fetch == Slot(Fetched(s), SIZE) && s.post == Slot(s.completed, SIZE) && s.tag == Tag(s.completed)
  }

  /** The commands between driver and controller are those of the reads they belong to. */
  ghost predicate Commands(s: State)
    requires Shape(s) && Counters(s)
  {
    && (forall n | Fetched(s) <= n < WrittenUp(s) :: s.sq[Slot(n, SIZE)] == CommandOf(s, n))
    && (forall i | 0 <= i < |s.held| :: s.held[i] == CommandOf(s, s.completed + i))
  }

  /** Completed reads have their block, the others part of it. */
  ghost predicate Data(disk: Disk, s: State) {
    forall n | 0 <= n < |s.lbas| ::
      n in s.buffers && if n < s.completed then s.buffers[n] == disk(s.lbas[n]) else Partial(s.buffers[n], disk(s.lbas[n]))
  }

  /** The slot the driver looks at holds 0 until its own completion is posted there. */
  ghost predicate Status(s: State)
    requires Shape(s)
  {
    && (s.phase != Idle ==> s.cq[Slot(|s.lbas| - 1, SIZE)] == if s.completed == |s.lbas| then Tag(|s.lbas| - 1) else 0)
    && (s.phase == Left(true) ==> s.completed == |s.lbas|)
  }

  ghost predicate Inv(disk: Disk, s: State) {
    Shape(s) && Counters(s) && Commands(s) && Data(disk, s) && Status(s)
  }

  lemma InitInv(disk: Disk)
    ensures Inv(disk, INIT)
  {}

  lemma ClearInv(disk: Disk, s: State, lba: int)
    requires Inv(disk, s) && (s.phase == Idle ==> Unfinished(s) <= 14)
    ensures Inv(disk, Step(disk, s, Clear(lba)))
  {
    hide Slot, Tag, Block;
  }

  lemma SubmitInv(disk: Disk, s: State)
    requires Inv(disk, s)
    ensures Inv(disk, Step(disk, s, Submit))
  {
    hide Slot, Tag, Block;
    if s.phase == Cleared {
      var last := |s.lbas| - 1;
      forall n | Fetched(s) <= n < last
        ensures Slot(n, SIZE) != Slot(last, SIZE)
      {
        SlotsApart(n, last, SIZE);
      }
    }
  }

  lemma DoorbellInv(disk: Disk, s: State)
    requires Inv(disk, s)
    ensures Inv(disk, Step(disk, s, RingDoorbell))
  {
    hide Slot, Tag, Block;
    NextSlot(|s.lbas| - 1, SIZE);
  }

  lemma GiveUpInv(disk: Disk, s: State)
    requires Inv(disk, s)
    ensures Inv(disk, Step(disk, s, GiveUp))
  {
    hide Slot, Tag, Block;
  }

  lemma AcknowledgeInv(disk: Disk, s: State)
    requires Inv(disk, s)
    ensures Inv(disk, Step(disk, s, Acknowledge))
  {
    hide Slot, Tag, Block;
    NextSlot(|s.lbas| - 1, SIZE);
  }

  lemma SeeInv(disk: Disk, s: State)
    requires Inv(disk, s)
    ensures Inv(disk, Step(disk, s, See))
  {
    hide Slot, Tag, Block;
  }

  lemma FetchInv(disk: Disk, s: State)
    requires Inv(disk, s)
    ensures Inv(disk, Step(disk, s, Fetch))
  {
    hide Slot, Tag, Block, ReadCommand, Data, Status;
    FetchGuard(disk, s);
    NextSlot(Fetched(s), SIZE);
    if Fetched(s) < Announced(s) {
      assert s.sq[Slot(Fetched(s), SIZE)] == CommandOf(s, Fetched(s));
    }
    SameButFetched(disk, s, Step(disk, s, Fetch));
  }

  lemma SameButFetched(disk: Disk, s: State, r: State)
    requires Shape(s) && Data(disk, s) && Status(s) && r == s.(held := r.held, fetch := r.fetch) && Shape(r)
    ensures Data(disk, r) && Status(r)
  {
    hide Slot, Tag, Partial;
  }

  lemma FetchGuard(disk: Disk, s: State)
    requires Inv(disk, s)
    ensures s.fetch != s.doorbell <==> Fetched(s) < Announced(s)
  {
    hide Tag, Block;
    if Fetched(s) < Announced(s) { SlotsApart(Fetched(s), Announced(s), SIZE); }
  }

  lemma BytesArrive(buffer: Sector, block: Sector, lo: nat, hi: nat)
    requires lo <= hi <= 512 && Partial(buffer, block)
    ensures Partial(buffer[..lo] + block[lo..hi] + buffer[hi..], block)
  {}

  lemma TransferInv(disk: Disk, s: State, job: nat, lo: nat, hi: nat)
    requires Inv(disk, s)
    ensures Inv(disk, Step(disk, s, Transfer(job, lo, hi)))
  {
    hide Slot, Tag, Block, Partial, Status, Counters;
    assert s.completed + |s.held| <= |s.lbas| by { AtMostAll(disk, s); }
    var r := Step(disk, s, Transfer(job, lo, hi));
    SameButBuffers(s, r);
    if job < |s.held| && lo <= hi <= 512 {
      var n := s.completed + job;
      assert s.held[job] == CommandOf(s, n);
      BlockIsLba(s.lbas[n], n, Slot(n, SIZE));
      BytesArrive(s.buffers[n], disk(s.lbas[n]), lo, hi);
    }
  }

  lemma SameButBuffers(s: State, r: State)
    requires Shape(s) && Counters(s) && Commands(s) && Status(s) && r == s.(buffers := r.buffers)
    ensures Shape(r) && Counters(r) && Commands(r) && Status(r)
  {
    hide Slot, Tag, ReadCommand;
  }

  /** A completion lands in the slot of its own read. */
  lemma CompleteStatus(disk: Disk, s: State)
    requires Inv(disk, s) && s.held != [] && Transferred(disk, s)
    ensures Status(Step(disk, s, Complete))
  {
    hide Slot, Tag, Block, Data, Commands;
    if s.completed < |s.lbas| - 1 { SlotsApart(s.completed, |s.lbas| - 1, SIZE); }
  }

  lemma CompleteInv(disk: Disk, s: State)
    requires Inv(disk, s)
    ensures Inv(disk, Step(disk, s, Complete))
  {
    hide Slot, Tag, Block, Partial, Status, ReadCommand;
    if s.held != [] && Transferred(disk, s) {
      assert s.held[0] == CommandOf(s, s.completed);
      NextSlot(s.completed, SIZE);
      NextTag(s.completed);
      BlockIsLba(s.lbas[s.completed], s.completed, Slot(s.completed, SIZE));
      CompleteStatus(disk, s);
    }
  }

  lemma StepInv(disk: Disk, s: State, a: Action)
    requires Inv(disk, s) && (a.Clear? && s.phase == Idle ==> Unfinished(s) <= 14)
    ensures Inv(disk, Step(disk, s, a))
  {
    hide Inv, Step, Unfinished;
    match a
    case Clear(lba) => ClearInv(disk, s, lba);
    case Submit => SubmitInv(disk, s);
    case RingDoorbell => DoorbellInv(disk, s);
    case See => SeeInv(disk, s);
    case GiveUp => GiveUpInv(disk, s);
    case Acknowledge => AcknowledgeInv(disk, s);
    case Fetch => FetchInv(disk, s);
    case Transfer(job, lo, hi) => TransferInv(disk, s, job, lo, hi);
    case Complete => CompleteInv(disk, s);
  }

  /** Each read of the run starts with at most 14 earlier ones unfinished. */
  ghost predicate Paced(disk: Disk, s: State, acts: seq<Action>)
    requires Shape(s)
  {
    acts == [] ||
    (var before, a := acts[..|acts| - 1], acts[|acts| - 1];
     && Paced(disk, s, before)
     && (a.Clear? && Run(disk, s, before).phase == Idle ==> Unfinished(Run(disk, s, before)) <= 14))
  }

  lemma {:induction false} RunInv(disk: Disk, s: State, acts: seq<Action>)
    requires Inv(disk, s) && Paced(disk, s, acts)
    ensures Inv(disk, Run(disk, s, acts))
  {
    assert Shape(s);
    hide Inv, Step, Unfinished;
    if acts != [] {
      RunInv(disk, s, acts[..|acts| - 1]);
      StepInv(disk, Run(disk, s, acts[..|acts| - 1]), acts[|acts| - 1]);
    }
  }

  // ---------- what every paced run guarantees ----------

  /** Leaving the wait loop by the status bit means this read's own completion was posted and its data is in its buffer. */
  lemma SeenMeansComplete(disk: Disk, acts: seq<Action>)
    requires Paced(disk, INIT, acts) && Run(disk, INIT, acts).phase == Left(true)
    ensures var s := Run(disk, INIT, acts);
            var n := |s.lbas| - 1;
            s.completed == |s.lbas| && n in s.buffers && s.buffers[n] == disk(s.lbas[n])
  {
    InitInv(disk);
    RunInv(disk, INIT, acts);
  }

  lemma StatusBit(disk: Disk, s: State)
    requires Inv(disk, s) && s.phase == Waiting
    ensures s.cq[s.head] % 2 == 1 <==> s.completed == |s.lbas| && (|s.lbas| - 1) / SIZE % 2 == 0
  {
    hide Slot, Block;
  }

  /** Exactly when a waiting driver can see its completion: it was posted, and on an even pass over the queue. */
  lemma VisibleExactly(disk: Disk, acts: seq<Action>)
    requires Paced(disk, INIT, acts) && Run(disk, INIT, acts).phase == Waiting
    ensures var s := Run(disk, INIT, acts);
            var n := |s.lbas| - 1;
            s.cq[s.head] % 2 == 1 <==> s.completed == |s.lbas| && n / 16 % 2 == 0
  {
    hide Run, Step, Paced;
    InitInv(disk);
    RunInv(disk, INIT, acts);
    StatusBit(disk, Run(disk, INIT, acts));
  }

  // ---------- reads that are served at once ----------

  /** A read whose command is fetched, whose data is moved and whose completion is posted while the driver waits. */
  ghost function Served(disk: Disk, s: State, lba: int): (r: State)
    requires Shape(s)
    ensures Shape(r)
  {
    var w := Step(disk, Step(disk, Step(disk, s, Clear(lba)), Submit), RingDoorbell);
    Step(disk, Step(disk, Step(disk, w, Fetch), Transfer(0, 0, 512)), Complete)
  }

  /** `n` such reads, each ended by the timeout. */
  ghost function Reads(disk: Disk, s: State, lba: int, n: nat): (r: State)
    requires Shape(s)
    ensures Shape(r)
  {
    if n == 0 then s
    else Step(disk, Step(disk, Served(disk, Reads(disk, s, lba, n - 1), lba), GiveUp), Acknowledge)
  }

  ghost predicate Settled(disk: Disk, s: State) { Inv(disk, s) && s.phase == Idle && s.completed == |s.lbas| }

  lemma IssuedOne(disk: Disk, s: State, lba: int)
    requires Settled(disk, s)
    ensures var w := Step(disk, Step(disk, Step(disk, s, Clear(lba)), Submit), RingDoorbell);
            && Inv(disk, w) && w.phase == Waiting && w.held == [] && w.completed == |s.lbas| && |w.lbas| == |s.lbas| + 1
  {
    hide Slot, Tag, Block, Commands, Data, Status;
    ClearInv(disk, s, lba);
    var s1 := Step(disk, s, Clear(lba));
    SubmitInv(disk, s1);
    DoorbellInv(disk, Step(disk, s1, Submit));
  }

  lemma WholeBlock(disk: Disk, s: State)
    requires Inv(disk, s) && |s.held| == 1
    ensures var r := Step(disk, s, Transfer(0, 0, 512));
            Inv(disk, r) && r == s.(buffers := r.buffers) && Transferred(disk, r)
  {
    hide Slot, Tag, Block, Partial, Status;
    TransferInv(disk, s, 0, 0, 512);
    AtMostAll(disk, s);
    assert s.held[0] == CommandOf(s, s.completed);
    var n := s.completed;
    assert n in s.buffers;
    var block := disk(Block(s.held[0]));
    assert s.buffers[n][..0] + block[0..512] + s.buffers[n][512..] == block;
  }

  lemma FetchedOne(disk: Disk, w: State)
    requires Inv(disk, w) && w.phase == Waiting && w.held == [] && w.completed + 1 == |w.lbas|
    ensures var f := Step(disk, w, Fetch); Inv(disk, f) && |f.held| == 1 && f == w.(held := f.held, fetch := f.fetch)
  {
    hide Inv;
    InvShape(disk, w);
    FetchInv(disk, w);
    FetchGuard(disk, w);
  }

  lemma CompletedOne(disk: Disk, s: State)
    requires Inv(disk, s) && s.held != [] && Transferred(disk, s)
    ensures Shape(s)
    ensures var r := Step(disk, s, Complete);
            Inv(disk, r) && r.phase == s.phase && r.lbas == s.lbas && r.completed == s.completed + 1
  {
    hide Inv, Transferred;
    InvShape(disk, s);
    CompleteInv(disk, s);
  }

  lemma ServedOne(disk: Disk, s: State, lba: int)
    requires Settled(disk, s)
    ensures Shape(s)
    ensures var r := Served(disk, s, lba); Inv(disk, r) && r.phase == Waiting && r.completed == |r.lbas| == |s.lbas| + 1
  {
    hide Inv, Step, Transferred;
    InvShape(disk, s);
    IssuedOne(disk, s, lba);
    var w := Step(disk, Step(disk, Step(disk, s, Clear(lba)), Submit), RingDoorbell);
    FetchedOne(disk, w);
    WholeBlock(disk, Step(disk, w, Fetch));
    CompletedOne(disk, Step(disk, Step(disk, w, Fetch), Transfer(0, 0, 512)));
  }

  lemma EndedOne(disk: Disk, s: State)
    requires Inv(disk, s) && s.phase == Waiting && s.completed == |s.lbas|
    ensures Shape(s)
    ensures var r := Step(disk, Step(disk, s, GiveUp), Acknowledge); Settled(disk, r) && |r.lbas| == |s.lbas|
  {
    InvShape(disk, s);
    GiveUpInv(disk, s);
    AcknowledgeInv(disk, Step(disk, s, GiveUp));
    hide Inv;
  }

  lemma {:induction false} ReadsSettle(disk: Disk, lba: int, n: nat)
    ensures var s := Reads(disk, INIT, lba, n); Settled(disk, s) && |s.lbas| == n
  {
    hide Inv, Step, Served;
    if n == 0 {
      InitInv(disk);
    } else {
      ReadsSettle(disk, lba, n - 1);
      var s := Reads(disk, INIT, lba, n - 1);
      ServedOne(disk, s, lba);
      EndedOne(disk, Served(disk, s, lba));
    }
  }

  /** The seventeenth read: its block is in place, its completion is posted, and the driver's status bit stays 0. */
  lemma SeventeenthReadUnseen(disk: Disk, lba: int)
    ensures var s := Served(disk, Reads(disk, INIT, lba, 16), lba);
            s.phase == Waiting && s.completed == |s.lbas| == 17 && s.cq[s.head] % 2 == 0
  {
    hide Inv, Step, Served, Reads;
    ReadsSettle(disk, lba, 16);
    var s := Reads(disk, INIT, lba, 16);
    ServedOne(disk, s, lba);
    StatusBit(disk, Served(disk, s, lba));
  }

  // ---------- the driver's code ----------

  /** Where the controller can act during one call of `read_sector`. */
  datatype Point = AfterClear | AfterSubmit | AfterDoorbell | Polling(round: nat) | AfterWait | Copying(at: nat)

  type Schedule = Point -> seq<Action>

  predicate ByController(a: Action) { a.Fetch? || a.Transfer? || a.Complete? }

  /** What the controller makes of a stretch of its schedule; steps of the driver are not its to make. */
  ghost function Elapsed(disk: Disk, s: State, steps: seq<Action>): (r: State)
    requires Shape(s)
    ensures Shape(r)
  {
    if steps == [] then s
    else
      var before, a := Elapsed(disk, s, steps[..|steps| - 1]), steps[|steps| - 1];
      if ByController(a) then Step(disk, before, a) else before
  }

  /** The state when the wait begins. */
  ghost function AtWait(disk: Disk, s: State, lba: int, schedule: Schedule): (r: State)
    requires Shape(s)
    ensures Shape(r)
  {
    var cleared := Elapsed(disk, Step(disk, s, Clear(lba)), schedule(AfterClear));
    var written := Elapsed(disk, Step(disk, cleared, Submit), schedule(AfterSubmit));
    Elapsed(disk, Step(disk, written, RingDoorbell), schedule(AfterDoorbell))
  }

  /** The state after `k` rounds of waiting. */
  ghost function Polled(disk: Disk, s: State, schedule: Schedule, k: nat): (r: State)
    requires Shape(s)
    ensures Shape(r)
  {
    if k == 0 then s else Elapsed(disk, Polled(disk, s, schedule, k - 1), schedule(Polling(k - 1)))
  }

  lemma PolledNext(disk: Disk, s: State, schedule: Schedule, k: nat)
    requires Shape(s)
    ensures Polled(disk, s, schedule, 0) == s
    ensures Polled(disk, s, schedule, k + 1) == Elapsed(disk, Polled(disk, s, schedule, k), schedule(Polling(k)))
  {}

  /** The state once the wait is left and the completion acknowledged. */
  ghost function AfterRead(disk: Disk, s: State, seen: bool, schedule: Schedule): (r: State)
    requires Shape(s)
    ensures Shape(r)
  {
    Step(disk, Step(disk, Elapsed(disk, s, schedule(AfterWait)), if seen then See else GiveUp), Acknowledge)
  }

  /** The state when byte `k - 1` has been copied. */
  ghost function Copied(disk: Disk, s: State, schedule: Schedule, k: nat): (r: State)
    requires Shape(s)
    ensures Shape(r)
  {
    if k == 0 then s else Elapsed(disk, Copied(disk, s, schedule, k - 1), schedule(Copying(k - 1)))
  }

  /** The sector holds what the buffer of read `n` held as each of its bytes was copied. */
  ghost predicate CopiedFrom(disk: Disk, s: State, schedule: Schedule, n: nat, sector: seq<int>, count: nat)
    requires Shape(s)
  {
    && |sector| >= count
    && forall i: nat | i < count ::
         var t := Copied(disk, s, schedule, i + 1); n in t.buffers && i < 512 && sector[i] == t.buffers[n][i]
  }

  lemma CopyOne(disk: Disk, s: State, schedule: Schedule, n: nat, bytes: seq<int>, i: nat)
    requires Shape(s) && |bytes| == i < 512 && CopiedFrom(disk, s, schedule, n, bytes, i)
    requires n in Copied(disk, s, schedule, i + 1).buffers
    ensures CopiedFrom(disk, s, schedule, n, bytes + [Copied(disk, s, schedule, i + 1).buffers[n][i]], i + 1)
  {
    hide Copied, Shape;
    var more := bytes + [Copied(disk, s, schedule, i + 1).buffers[n][i]];
    forall k: nat | k < i + 1
      ensures var t := Copied(disk, s, schedule, k + 1); n in t.buffers && k < 512 && more[k] == t.buffers[n][k]
    {
      if k < i { assert more[k] == bytes[k]; }
    }
  }

  lemma CopiedNone(disk: Disk, s: State, schedule: Schedule, n: nat)
    requires Shape(s)
    ensures Copied(disk, s, schedule, 0) == s && CopiedFrom(disk, s, schedule, n, [], 0)
  {}

  lemma {:induction false} CopiedKeeps(disk: Disk, s: State, schedule: Schedule, k: nat)
    requires Inv(disk, s)
    ensures Shape(s)
    ensures var r := Copied(disk, s, schedule, k); Inv(disk, r) && r.lbas == s.lbas && r.completed >= s.completed
  {
    hide Inv, Elapsed, Shape;
    InvShape(disk, s);
    if k > 0 {
      CopiedKeeps(disk, s, schedule, k - 1);
      ElapsedKeeps(disk, Copied(disk, s, schedule, k - 1), schedule(Copying(k - 1)));
    }
  }

  /** Whatever happens while it is copied, each byte is the block's or zero; a completed block is copied whole. */
  lemma CopyResult(disk: Disk, s: State, schedule: Schedule, n: nat, sector: Sector)
    requires Inv(disk, s) && n < |s.lbas| && Shape(s) && CopiedFrom(disk, s, schedule, n, sector, 512)
    ensures Partial(sector, disk(s.lbas[n])) && (s.completed > n ==> sector == disk(s.lbas[n]))
  {
    hide Inv, Copied, Shape;
    forall i: nat | i < 512
      ensures sector[i] == disk(s.lbas[n])[i] || (sector[i] == 0 && s.completed <= n)
    {
      CopiedKeeps(disk, s, schedule, i + 1);
      BufferOf(disk, Copied(disk, s, schedule, i + 1), n);
    }
  }

  lemma CopiedNext(disk: Disk, s: State, schedule: Schedule, k: nat)
    requires Shape(s)
    ensures Copied(disk, s, schedule, k + 1) == Elapsed(disk, Copied(disk, s, schedule, k), schedule(Copying(k)))
  {}

  /** The status word that the driver tests has its lowest bit set. */
  ghost predicate StatusSet(s: State)
    requires Shape(s)
  {
    s.cq[s.head] % 2 == 1
  }

  lemma ControllerStep(disk: Disk, s: State, a: Action)
    requires Inv(disk, s) && ByController(a)
    ensures Shape(s)
    ensures var r := Step(disk, s, a);
            Inv(disk, r) && r.phase == s.phase && r.lbas == s.lbas && r.head == s.head && r.completed >= s.completed
  {
    hide Inv;
    InvShape(disk, s);
    StepInv(disk, s, a);
  }

  lemma {:induction false} ElapsedKeeps(disk: Disk, s: State, steps: seq<Action>)
    requires Inv(disk, s)
    ensures Shape(s)
    ensures var r := Elapsed(disk, s, steps);
            Inv(disk, r) && r.phase == s.phase && r.lbas == s.lbas && r.head == s.head && r.completed >= s.completed
  {
    hide Inv, Step, Shape;
    InvShape(disk, s);
    if steps != [] {
      var before, a := steps[..|steps| - 1], steps[|steps| - 1];
      ElapsedKeeps(disk, s, before);
      if ByController(a) { ControllerStep(disk, Elapsed(disk, s, before), a); }
    }
  }

  lemma {:induction false} PolledKeeps(disk: Disk, s: State, schedule: Schedule, j: nat, k: nat)
    requires Inv(disk, s) && j <= k
    ensures Shape(s)
    ensures var q, r := Polled(disk, s, schedule, j), Polled(disk, s, schedule, k);
            Inv(disk, r) && r.phase == s.phase && r.lbas == s.lbas && r.completed >= q.completed
  {
    hide Inv, Elapsed, Shape;
    InvShape(disk, s);
    if k > 0 {
      PolledKeeps(disk, s, schedule, if j < k then j else k - 1, k - 1);
      ElapsedKeeps(disk, Polled(disk, s, schedule, k - 1), schedule(Polling(k - 1)));
    }
  }

  /** The wait makes its test up to `last` rounds in: it ends by the status bit exactly if the completion is there by then and the pass is even. */
  lemma SeenIfPosted(disk: Disk, w: State, schedule: Schedule, rounds: nat, seen: bool, last: nat)
    requires Inv(disk, w) && w.phase == Waiting && Shape(w)
    requires forall j | 0 <= j < rounds :: !StatusSet(Polled(disk, w, schedule, j))
    requires if seen then rounds <= last && StatusSet(Polled(disk, w, schedule, rounds)) else rounds == last + 1
    ensures var posted := Polled(disk, w, schedule, last).completed == |w.lbas|;
            && (seen <==> posted && (|w.lbas| - 1) / SIZE % 2 == 0)
            && (posted ==> Polled(disk, w, schedule, rounds).completed >= |w.lbas|)
  {
    hide Inv, Polled, Shape;
    PolledKeeps(disk, w, schedule, if rounds <= last then rounds else last, if rounds <= last then last else rounds);
    PolledKeeps(disk, w, schedule, 0, last);
    PolledKeeps(disk, w, schedule, 0, rounds);
    StatusBit(disk, Polled(disk, w, schedule, last));
    StatusBit(disk, Polled(disk, w, schedule, rounds));
    AtMostAll(disk, Polled(disk, w, schedule, last));
  }

  class Drive {
    const disk: Disk
    const iosq: array<Command>
    const iocq: array<int>
    var iosqTail: int
    var iocqHead: int
    var doorbell: int
    // the controller
    var fetch: int
    var held: seq<Command>
    var post: int
    var tag: int
    // memory, and what has happened so far
    var buffers: map<int, Sector>
    var lbas: seq<int>
    ghost var completed: nat
    ghost var phase: Phase

    ghost function View(): State
      reads this, iosq, iocq
    {
      State(iosqTail, iocqHead, phase, iosq[..], iocq[..], doorbell, fetch, held, post, tag, buffers, lbas, completed)
    }

    constructor (disk: Disk)
      ensures this.disk == disk && View() == INIT && Inv(disk, View()) && fresh(iosq) && fresh(iocq) && iosq as object != iocq
    {
      this.disk := disk;
      iosq := new Command[SIZE](_ => Command(0, 0, 0, 0, 0, 0));
      iocq := new int[SIZE](_ => 0);
      iosqTail, iocqHead, doorbell, fetch, held, post, tag := 0, 0, 0, 0, [], 0, 1;
      buffers, lbas, completed, phase := map[], [], 0, Idle;
      new;
      assert iosq[..] == INIT.sq && iocq[..] == INIT.cq;
      InitInv(disk);
    }

    // ----- the controller's steps -----

    method FetchOne()
      requires Shape(View())
      modifies this`held, this`fetch
      ensures View() == Step(disk, old(View()), Fetch)
    {
      if fetch != doorbell {
        held, fetch := held + [iosq[fetch]], (fetch + 1) % SIZE;
      }
    }

    method TransferSome(job: nat, lo: nat, hi: nat)
      requires Shape(View())
      modifies this`buffers
      ensures View() == Step(disk, old(View()), Transfer(job, lo, hi))
    {
      if job < |held| && held[job].prp1 in buffers && lo <= hi <= 512 {
        buffers := WithBytes(buffers, held[job].prp1, disk(Block(held[job])), lo, hi);
      }
    }

    method PostStatus()
      requires Shape(View()) && held != [] && iosq as object != iocq
      modifies this`held, this`post, this`tag, this`completed, iocq
      ensures View() == Posted(old(View()))
    {
      iocq[post] := tag;
      held := held[1..];
      tag := if post + 1 == SIZE then 1 - tag else tag;
      post := (post + 1) % SIZE;
      completed := completed + 1;
    }

    method CompleteOne()
      requires Shape(View()) && iosq as object != iocq
      modifies this`held, this`post, this`tag, this`completed, iocq
      ensures View() == Step(disk, old(View()), Complete)
    {
      hide Posted, Block, Shape;
      if held != [] && held[0].prp1 in buffers && buffers[held[0].prp1] == disk(Block(held[0])) {
        PostStatus();
      }
    }

    /** Whatever the controller does between two steps of the driver. */
    method Elapse(steps: seq<Action>)
      requires Inv(disk, View()) && iosq as object != iocq
      modifies this`fetch, this`held, this`post, this`tag, this`buffers, this`completed, iocq
      ensures Inv(disk, View()) && completed >= old(completed)
      ensures Shape(old(View())) && View() == Elapsed(disk, old(View()), steps)
    {
      hide Inv, Step, Shape;
      ghost var s := View();
      InvShape(disk, s);
      ElapsedKeeps(disk, s, []);
      for i := 0 to |steps|
        invariant Inv(disk, View()) && View() == Elapsed(disk, s, steps[..i])
      {
        assert steps[..i + 1][..i] == steps[..i];
        ElapsedKeeps(disk, s, steps[..i + 1]);
        InvShape(disk, View());
        match steps[i] {
          case Fetch => FetchOne();
          case Transfer(job, lo, hi) => TransferSome(job, lo, hi);
          case Complete => CompleteOne();
          case _ =>
        }
      }
      assert steps[..|steps|] == steps;
      ElapsedKeeps(disk, s, steps);
    }

    // ----- the driver's steps -----

    method ClearStatus(lba: int)
      requires Shape(View()) && phase == Idle && iosq as object != iocq
      modifies this`buffers, this`lbas, this`phase, iocq
      ensures View() == Step(disk, old(View()), Clear(lba)) && phase == Cleared && lbas == old(lbas) + [lba]
    {
      iocq[iosqTail] := 0;
      buffers, lbas, phase := buffers[|lbas| := BLANK], lbas + [lba], Cleared;
    }

    method WriteCommand(lba: int, buffer: int)
      requires Shape(View()) && phase == Cleared && iosq as object != iocq
      requires lba == lbas[|lbas| - 1] && buffer == |lbas| - 1
      modifies this`phase, iosq
      ensures View() == Step(disk, old(View()), Submit) && phase == Written
    {
      iosq[iosqTail] := Command(0x02 + 0x1_0000 * iosqTail, 1, buffer, lba % TWO32, lba / TWO32, 0);
      phase := Written;
    }

    method RingTheDoorbell()
      requires Shape(View()) && phase == Written
      modifies this`phase, this`iosqTail, this`doorbell
      ensures View() == Step(disk, old(View()), RingDoorbell) && phase == Waiting
    {
      iosqTail := (iosqTail + 1) % SIZE;
      doorbell := iosqTail;
      phase := Waiting;
    }

    method AcknowledgeCompletion(ghost seen: bool)
      requires Shape(View()) && phase == Waiting && (seen ==> iocq[iocqHead] % 2 == 1)
      modifies this`phase, this`iocqHead
      ensures View() == Step(disk, Step(disk, old(View()), if seen then See else GiveUp), Acknowledge) && phase == Idle
    {
      iocqHead := (iocqHead + 1) % SIZE;
      phase := Idle;
    }

    /**
     One read. `schedule` is what the controller does at each point where it can. The driver sees its
     completion exactly if the pass over the queue is even and the completion is posted within the
     20,000,000 rounds before its last test; whatever is posted by then, on either pass, it returns
     the requested block, and otherwise each byte is the block's or zero. `rounds` is how long it waited;
     the sector is then copied from the buffer as it stands, byte by byte.
     */
    method ReadSector(lba: int, schedule: Schedule) returns (sector: Sector, seen: bool, ghost rounds: nat)
      requires Inv(disk, View()) && phase == Idle && Unfinished(View()) <= 14 && iosq as object != iocq
      modifies this, iosq, iocq
      ensures Inv(disk, View()) && phase == Idle && iosqTail == iocqHead && lbas == old(lbas) + [lba]
      ensures Shape(old(View()))
      ensures var posted := Polled(disk, AtWait(disk, old(View()), lba, schedule), schedule, 20_000_000).completed == |old(lbas)| + 1;
              && (seen <==> posted && |old(lbas)| / 16 % 2 == 0)
              && (posted ==> sector == disk(lba))
      ensures Partial(sector, disk(lba))
      ensures var w := AtWait(disk, old(View()), lba, schedule);
              && (forall j | 0 <= j < rounds :: !StatusSet(Polled(disk, w, schedule, j)))
              && (if seen then rounds <= 20_000_000 && StatusSet(Polled(disk, w, schedule, rounds)) else rounds == 20_000_001)
              && CopiedFrom(disk, AfterRead(disk, Polled(disk, w, schedule, rounds), seen, schedule), schedule, |old(lbas)|, sector, 512)
    {
      hide Inv, Step, Unfinished, Partial, Polled, AtWait, Elapsed, Shape, StatusSet, CopiedFrom;
      Issue(lba, schedule);
      ghost var w := View();
      seen, rounds := Wait(schedule);
      SeenIfPosted(disk, w, schedule, rounds, seen, 20_000_000);
      Elapse(schedule(AfterWait));
      LeaveWait(seen);
      sector := CopySector(|lbas| - 1, schedule);
    }

    /** Clear the completion slot, write the command, ring the doorbell. */
    method Issue(lba: int, schedule: Schedule)
      requires Inv(disk, View()) && phase == Idle && Unfinished(View()) <= 14 && iosq as object != iocq
      modifies this, iosq, iocq
      ensures Inv(disk, View()) && phase == Waiting && lbas == old(lbas) + [lba]
      ensures Shape(old(View())) && View() == AtWait(disk, old(View()), lba, schedule)
    {
      hide Inv, Step, Elapsed, Shape;
      InvShape(disk, View());
      StepInv(disk, View(), Clear(lba));
      ClearStatus(lba);
      Elapse(schedule(AfterClear));
      InvShape(disk, View());
      StepInv(disk, View(), Submit);
      WriteCommand(lba, |lbas| - 1);
      Elapse(schedule(AfterSubmit));
      InvShape(disk, View());
      StepInv(disk, View(), RingDoorbell);
      RingTheDoorbell();
      Elapse(schedule(AfterDoorbell));
    }

    /** The polling loop: left by the first test that finds the status bit, or after 20,000,001 tests that did not. */
    method Wait(schedule: Schedule) returns (seen: bool, ghost rounds: nat)
      requires Inv(disk, View()) && phase == Waiting && iosq as object != iocq
      modifies this`fetch, this`held, this`post, this`tag, this`buffers, this`completed, iocq
      ensures Inv(disk, View()) && Shape(old(View())) && View() == Polled(disk, old(View()), schedule, rounds)
      ensures forall j | 0 <= j < rounds :: !StatusSet(Polled(disk, old(View()), schedule, j))
      ensures if seen then rounds <= 20_000_000 && StatusSet(View()) else rounds == 20_000_001
    {
      hide Inv, Step, Elapsed, Polled;
      ghost var s := View();
      var timeout := 0;
      InvShape(disk, s);
      PolledNext(disk, s, schedule, 0);
      while iocq[iocqHead] % 2 == 0
        invariant Inv(disk, View()) && Shape(View()) && View() == Polled(disk, s, schedule, timeout)
        invariant forall j | 0 <= j < timeout :: !StatusSet(Polled(disk, s, schedule, j))
        invariant timeout <= 20_000_000
        decreases 20_000_000 - timeout
      {
        PolledNext(disk, s, schedule, timeout);
        Elapse(schedule(Polling(timeout)));
        InvShape(disk, View());
        timeout := timeout + 1;
        if timeout > 20_000_000 { return false, timeout; }
      }
      return true, timeout;
    }

    /** Move the completion head on, whether the completion was seen or not. */
    method LeaveWait(ghost seen: bool)
      requires Inv(disk, View()) && phase == Waiting
      requires seen ==> completed >= |lbas| && (|lbas| - 1) / SIZE % 2 == 0
      modifies this`phase, this`iocqHead
      ensures Inv(disk, View()) && phase == Idle && iosqTail == iocqHead && Shape(old(View()))
      ensures View() == Step(disk, Step(disk, old(View()), if seen then See else GiveUp), Acknowledge)
    {
      hide Inv, Step;
      InvShape(disk, View());
      AtMostAll(disk, View());
      StatusBit(disk, View());
      ghost var left := if seen then See else GiveUp;
      StepInv(disk, View(), left);
      StepInv(disk, Step(disk, View(), left), Acknowledge);
      AcknowledgeCompletion(seen);
      BetweenReads(disk, View());
    }

    /** Copy the buffer of a read byte by byte, while the controller may still be writing it. */
    method CopySector(n: nat, schedule: Schedule) returns (sector: Sector)
      requires Inv(disk, View()) && n < |lbas| && iosq as object != iocq
      modifies this`fetch, this`held, this`post, this`tag, this`buffers, this`completed, iocq
      ensures Inv(disk, View())
      ensures Partial(sector, disk(lbas[n])) && (old(completed) > n ==> sector == disk(lbas[n]))
      ensures Shape(old(View())) && CopiedFrom(disk, old(View()), schedule, n, sector, 512)
    {
      hide Inv, Elapsed, Copied, CopiedFrom, Shape, Partial;
      ghost var s := View();
      var bytes: seq<int> := [];
      InvShape(disk, s);
      CopiedNone(disk, s, schedule, n);
      for i := 0 to 512
        invariant Inv(disk, View()) && View() == Copied(disk, s, schedule, i)
        invariant |bytes| == i && CopiedFrom(disk, s, schedule, n, bytes, i)
      {
        CopiedNext(disk, s, schedule, i);
        Elapse(schedule(Copying(i)));
        BufferOf(disk, View(), n);
        CopyOne(disk, s, schedule, n, bytes, i);
        bytes := bytes + [buffers[n][i]];
      }
      sector := bytes;
      CopyResult(disk, s, schedule, n, sector);
    }
  }

  lemma InvShape(disk: Disk, s: State)
    requires Inv(disk, s)
    ensures Shape(s)
  {}

  lemma BufferOf(disk: Disk, s: State, n: nat)
    requires Inv(disk, s) && n < |s.lbas|
    ensures n in s.buffers && Partial(s.buffers[n], disk(s.lbas[n]))
    ensures s.completed > n ==> s.buffers[n] == disk(s.lbas[n])
  {}

  lemma AtMostAll(disk: Disk, s: State)
    requires Inv(disk, s)
    ensures Fetched(s) <= |s.lbas|
  {}

  lemma NeverUncompleted(disk: Disk, s: State)
    requires Shape(s)
    ensures Step(disk, s, Fetch).completed == s.completed && Step(disk, s, Complete).completed >= s.completed
  {}

  lemma BetweenReads(disk: Disk, s: State)
    requires Inv(disk, s) && s.phase == Idle
    ensures s.tail == s.head
  {}
}
