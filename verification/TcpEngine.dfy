/**
 The stateless TCP engine. It answers each segment from that segment alone; the
 reference keeps a record per connection. Over every run of conforming clients,
 with their segments duplicated and reordered at will, both say the same.
 */
module TcpEngine {
  import opened Wrappers
  import opened Arithmetic
  import opened Checksum
  import opened Frames
  import opened ArpCache
  import opened Http
  import Tx = TxRing

  const ISS := 0xCAFE_BABE
  const MODULUS := 0x1_0000_0000

  predicate Syn(flags: int) { flags / 2 % 2 == 1 }
  predicate Psh(flags: int) { flags / 8 % 2 == 1 }

  const GET: Bytes := [71, 69, 84]

  /** A table whose active entries hold six-byte addresses. */
  ghost predicate ValidTable(arp: seq<Entry>) {
    forall e | e in arp && e.active :: |e.mac| == 6 && AreBytes(e.mac)
  }

  function TargetMac(arp: seq<Entry>, ip: Bytes): Bytes {
    var m := Lookup(arp, ip);
    if m.Some? then m.value else [0xFF, 0xFF, 0xFF, 0xFF, 0xFF, 0xFF]
  }

  lemma TargetMacIsMac(arp: seq<Entry>, ip: Bytes)
    requires ValidTable(arp)
    ensures |TargetMac(arp, ip)| == 6 && AreBytes(TargetMac(arp, ip))
  {
    var i := Find(arp, ip);
    if i < |arp| { assert arp[i] in arp; }
  }

  lemma {:induction false} SegmentRanges(p: Bytes)
    requires AreBytes(p) && Parse(p).Some?
    ensures var s := Parse(p).value;
            && |s.srcIp| == 4 && AreBytes(s.srcIp)
            && IsU16(s.srcPort) && IsU32(s.seqNum) && IsU32(s.ackNum)
            && s.ipHeaderLength >= 0 && s.headerLength >= 0
  {}

  /** What a segment to port 80 asks for. */
  datatype Demand = Nothing | Handshake(s: Segment) | Request(s: Segment, length: int)

  function Demanded(p: Bytes): Demand
    requires AreBytes(p)
  {
    var r := Parse(p);
    if r.None? then Nothing
    else
      SegmentRanges(p);
      var s := r.value;
      if s.destIp != MY_IP || s.destPort != 80 then Nothing
      else if Syn(s.flags) then Handshake(s)
      else if Psh(s.flags) then
        var data := Payload(p, s);
        if data.Some? && StartsWith(data.value, GET) then Request(s, |data.value|) else Nothing
      else Nothing
  }

  function SynAck(mac: Bytes, s: Segment, ack: int): Header {
    Header(mac, s.srcIp, s.srcPort, ISS, ack % MODULUS, 0x12, 24)
  }

  function Answer(mac: Bytes, s: Segment, seqNum: int, ack: int): Header {
    Header(mac, s.srcIp, s.srcPort, seqNum, ack % MODULUS, 0x18, 20)
  }

  /** The header and body of the reply, computed from the segment alone. */
  function Reply(arp: seq<Entry>, content: Bytes, p: Bytes): Option<(Header, Bytes)>
    requires AreBytes(p)
  {
    match Demanded(p)
    case Nothing => None
    case Handshake(s) => Some((SynAck(TargetMac(arp, s.srcIp), s, s.seqNum + 1), []))
    case Request(s, n) => Some((Answer(TargetMac(arp, s.srcIp), s, s.ackNum, s.seqNum + n), Response(content)))
  }

  // ---------- the stateful reference ----------

  type Key = (Bytes, int)

  /** The sequence number each peer opened with. */
  type Connections = map<Key, int>

  function Remembered(conns: Connections, p: Bytes): Connections
    requires AreBytes(p)
  {
    match Demanded(p)
    case Handshake(s) => conns[(s.srcIp, s.srcPort) := s.seqNum]
    case _ => conns
  }

  /** The reply of an engine that looks its sequence numbers up instead of trusting the segment. */
  function ReferenceReply(arp: seq<Entry>, content: Bytes, conns: Connections, p: Bytes): Option<(Header, Bytes)>
    requires AreBytes(p)
  {
    match Demanded(p)
    case Nothing => None
    case Handshake(s) => Some((SynAck(TargetMac(arp, s.srcIp), s, s.seqNum + 1), []))
    case Request(s, n) =>
      var key := (s.srcIp, s.srcPort);
      if key !in conns then None
      else Some((Answer(TargetMac(arp, s.srcIp), s, (ISS + 1) % MODULUS, conns[key] + 1 + n), Response(content)))
  }

  // ---------- clients and the network ----------

  datatype Client = Client(mac: Bytes, ip: Bytes, port: int, isn: int, request: Bytes)

  /** Frames that carry the client's SYN, and its request acknowledging `ack`. */
  ghost predicate IsSyn(p: Bytes, c: Client) {
    && AreBytes(p) && Demanded(p).Handshake?
    && var s := Demanded(p).s; s.srcIp == c.ip && s.srcPort == c.port && s.seqNum == c.isn
  }

  ghost predicate IsRequest(p: Bytes, c: Client, ack: int) {
    && AreBytes(p) && Demanded(p).Request?
    && var s := Demanded(p).s;
       && s.srcIp == c.ip && s.srcPort == c.port && s.seqNum == (c.isn + 1) % MODULUS && s.ackNum == ack
       && s.ipHeaderLength >= 0 && s.headerLength >= 0 && Payload(p, s) == Some(c.request)
  }

  ghost predicate AsksNothing(p: Bytes) { AreBytes(p) && Demanded(p) == Nothing }

  /** A frame whose destination is this station, or every station. */
  ghost predicate Receives(c: Client, p: Bytes) {
    |p| >= 14 && (p[0..6] == c.mac || p[0..6] == [0xFF, 0xFF, 0xFF, 0xFF, 0xFF, 0xFF])
  }

  /** What the client checks before it considers the handshake done. */
  ghost predicate Accepts(c: Client, p: Bytes) {
    && Receives(c, p)
    && Parse(p).Some?
    && var s := Parse(p).value;
       s.destIp == c.ip && s.destPort == c.port && Syn(s.flags) && s.ackNum == (c.isn + 1) % MODULUS
  }

  /**
   A client sends its SYN; a client that has received an acceptable SYN-ACK, with whatever
   padding, sends its request; anyone sends frames that ask for nothing, such as a bare ACK, a FIN
   or another host's traffic; any frame ever sent reaches the engine, any number of times.
   */
  datatype Event =
    | SendSyn(c: Client, p: Bytes)
    | SendRequest(c: Client, p: Bytes, reply: nat, padding: Bytes)
    | SendOther(p: Bytes)
    | Deliver(index: nat, arp: seq<Entry>)

  datatype Net = Net(
    sent: seq<Bytes>,                            // frames clients have put on the wire
    replies: seq<Option<(Header, Bytes)>>,       // the engine's answers, delivery by delivery
    tables: seq<seq<Entry>>,                     // the ARP table at each delivery
    reference: seq<Option<(Header, Bytes)>>,     // the reference's answers to the same deliveries
    conns: Connections)

  const START := Net([], [], [], [], map[])

  /** A reply that the frame builder can state and whose frame fits a transmit descriptor. */
  ghost predicate Fitting(h: Header, body: Bytes) {
    WellFormed(h) && h.length % 4 == 0 && AreBytes(body) && 34 + h.length + |body| < 0x1_0000
  }

  /** What leaves the NIC: the finished frame, up to the length its descriptor states. */
  function Sent(h: Header, body: Bytes): Bytes
    requires WellFormed(h) && AreBytes(body)
  {
    Tx.Wire(Finished(h, body))
  }

  lemma FittingIsSentWhole(h: Header, body: Bytes)
    requires Fitting(h, body)
    ensures Sent(h, body) == Finished(h, body)
  {
    hide Finished, Verifies, Built;
    FinishedSums(h, body, 20 + h.length + |body|);
    Tx.WireIsWhole(Finished(h, body));
  }

  /** A frame whose IP length fits can be read by its receiver exactly when its own length fits a descriptor too. */
  lemma SentReadableIff(h: Header, body: Bytes)
    requires WellFormed(h) && h.length % 4 == 0 && AreBytes(body) && 20 + h.length + |body| < 0x1_0000
    ensures Parse(Sent(h, body)).Some? <==> 34 + h.length + |body| < 0x1_0000
  {
    hide Finished, Verifies, Built;
    var f, n := Finished(h, body), 34 + h.length + |body|;
    FinishedSums(h, body, 20 + h.length + |body|);
    if n < 0x1_0000 {
      FittingIsSentWhole(h, body);
      HeaderLengthExact(h, body);
    } else {
      assert n % 0x1_0000 == n - 0x1_0000 < 14;
    }
  }

  ghost predicate Allowed(clients: set<Client>, n: Net, e: Event) {
    match e
    case SendSyn(c, p) => c in clients && IsSyn(p, c)
    case SendRequest(c, p, i, padding) =>
      && c in clients && i < |n.replies| && n.replies[i].Some?
      && var (h, body) := n.replies[i].value;
         && Fitting(h, body)
         && Accepts(c, Sent(h, body) + padding)
         && IsRequest(p, c, (Parse(Sent(h, body) + padding).value.seqNum + 1) % MODULUS)
    case SendOther(p) => AsksNothing(p)
    case Deliver(i, arp) => i < |n.sent| && AreBytes(n.sent[i]) && ValidTable(arp)
  }

  ghost function Next(content: Bytes, n: Net, e: Event): Net {
    match e
    case SendSyn(c, p) => n.(sent := n.sent + [p])
    case SendRequest(c, p, _, _) => n.(sent := n.sent + [p])
    case SendOther(p) => n.(sent := n.sent + [p])
    case Deliver(i, arp) =>
      if i < |n.sent| && AreBytes(n.sent[i]) then
        n.(replies := n.replies + [Reply(arp, content, n.sent[i])],
           tables := n.tables + [arp],
           reference := n.reference + [ReferenceReply(arp, content, n.conns, n.sent[i])],
           conns := Remembered(n.conns, n.sent[i]))
      else n
  }

  ghost function Run(content: Bytes, es: seq<Event>): Net {
    if es == [] then START else Next(content, Run(content, es[..|es| - 1]), es[|es| - 1])
  }

  /** Every event of the run is one that conforming clients and a lossy, duplicating network can produce. */
  ghost predicate Conforming(clients: set<Client>, content: Bytes, es: seq<Event>) {
    es == [] || (Conforming(clients, content, es[..|es| - 1]) && Allowed(clients, Run(content, es[..|es| - 1]), es[|es| - 1]))
  }

  /** Clients are told apart by address and port, and their numbers fit their fields. */
  ghost predicate ToldApart(clients: set<Client>) {
    && (forall c | c in clients :: IsU32(c.isn))
    && (forall c, d | c in clients && d in clients && c.ip == d.ip && c.port == d.port :: c == d)
  }

  // ---------- the invariant ----------

  ghost predicate Known(c: Client, n: Net) { (c.ip, c.port) in n.conns && n.conns[(c.ip, c.port)] == c.isn }

  /** When clients are told apart, the reference has this one's record; when ports are reused, nothing is said. */
  ghost predicate Recorded(clients: set<Client>, c: Client, n: Net) { ToldApart(clients) ==> Known(c, n) }

  /** A frame on the wire asks for nothing, or is some client's SYN, or its request once the engine has seen its SYN. */
  ghost predicate GoodFrame(clients: set<Client>, n: Net, p: Bytes) {
    AsksNothing(p) || exists c :: c in clients && (IsSyn(p, c) || (IsRequest(p, c, (ISS + 1) % MODULUS) && Recorded(clients, c, n)))
  }

  /** A handshake reply acknowledges that client's ISN + 1; a response starts at ISS + 1 and acknowledges its bytes. */
  ghost predicate GoodReply(content: Bytes, c: Client, r: (Header, Bytes)) {
    && r.0.ip == c.ip && r.0.port == c.port
    && (|| (r.0.flags == 0x12 && r.0.length == 24 && r.1 == []
            && r.0.seqNum == ISS && r.0.ackNum == (c.isn + 1) % MODULUS)
        || (r.0.flags == 0x18 && r.0.length == 20 && r.1 == Response(content)
            && r.0.seqNum == (ISS + 1) % MODULUS && r.0.ackNum == (c.isn + 1 + |c.request|) % MODULUS))
  }

  ghost predicate Answered(clients: set<Client>, content: Bytes, n: Net, r: (Header, Bytes)) {
    Fitting(r.0, r.1) && exists c :: c in clients && GoodReply(content, c, r) && Recorded(clients, c, n)
  }

  ghost predicate Inv(clients: set<Client>, content: Bytes, n: Net) {
    && (ToldApart(clients) ==> n.replies == n.reference)
    && (forall p | p in n.sent :: GoodFrame(clients, n, p))
    && (forall i | 0 <= i < |n.replies| && n.replies[i].Some? :: Answered(clients, content, n, n.replies[i].value))
  }

  lemma Mod(a: int, b: int)
    ensures ((a % MODULUS) + b) % MODULUS == (a + b) % MODULUS
  {
    var q := a / MODULUS;
    Quotient(a % MODULUS + b, MODULUS, (a + b) / MODULUS - q, (a + b) % MODULUS);
  }

  /** The engine's answer to one good frame. */
  lemma DeliverGood(clients: set<Client>, content: Bytes, n: Net, p: Bytes, c: Client, arp: seq<Entry>)
    requires c in clients && AreBytes(p) && (IsSyn(p, c) || IsRequest(p, c, (ISS + 1) % MODULUS))
    ensures var r := Reply(arp, content, p);
            && r.Some? && GoodReply(content, c, r.value)
            && (IsSyn(p, c) || Known(c, n) ==> r == ReferenceReply(arp, content, n.conns, p))
            && Remembered(n.conns, p) == (if IsSyn(p, c) then n.conns[(c.ip, c.port) := c.isn] else n.conns)
  {
    if !IsSyn(p, c) {
      Mod(c.isn + 1, |c.request|);
      assert Demanded(p).length == |c.request|;
    }
  }

  lemma ReplyFits(arp: seq<Entry>, content: Bytes, p: Bytes)
    requires AreBytes(p) && ValidTable(arp) && Reply(arp, content, p).Some? && Servable(content)
    ensures var (h, body) := Reply(arp, content, p).value; Fitting(h, body)
  {
    hide Parse, Lookup, TargetMac, Payload, Response, Demanded;
    DemandRanges(p);
    var s := Demanded(p).s;
    TargetMacIsMac(arp, s.srcIp);
    assert WellFormed(Reply(arp, content, p).value.0);
  }

  lemma DemandRanges(p: Bytes)
    requires AreBytes(p) && Demanded(p) != Nothing
    ensures var s := Demanded(p).s;
            |s.srcIp| == 4 && AreBytes(s.srcIp) && IsU16(s.srcPort) && IsU32(s.seqNum) && IsU32(s.ackNum)
  {
    SegmentRanges(p);
    hide Parse, Payload;
  }

  /** A content whose response fits one frame; everything boot stores is one. */
  ghost predicate Servable(content: Bytes) { AreBytes(Response(content)) && 54 + |Response(content)| < 0x1_0000 }

  lemma StoredIsServable(b: Boot, utf8: Bytes -> bool)
    requires |b.sector| == 512 && AreBytes(b.sector)
    ensures Servable(Stored(b, utf8))
  {
    StoredResponseFits(b, utf8);
  }

  lemma KnownKept(clients: set<Client>, n: Net, m: Net, c: Client, d: Client)
    requires ToldApart(clients) && c in clients && d in clients && Known(d, n)
    requires m.conns == n.conns || m.conns == n.conns[(c.ip, c.port) := c.isn]
    ensures Known(d, m)
  {}

  /** What was good stays good as long as the engine forgets nobody. */
  lemma GoodKept(clients: set<Client>, content: Bytes, n: Net, m: Net)
    requires forall d | d in clients && Recorded(clients, d, n) :: Recorded(clients, d, m)
    ensures forall p | GoodFrame(clients, n, p) :: GoodFrame(clients, m, p)
    ensures forall r | Answered(clients, content, n, r) :: Answered(clients, content, m, r)
  {
    hide Recorded, IsSyn, IsRequest, GoodReply, Fitting, AsksNothing;
    forall p | GoodFrame(clients, n, p)
      ensures GoodFrame(clients, m, p)
    {
      if !AsksNothing(p) {
        var d :| d in clients && (IsSyn(p, d) || (IsRequest(p, d, (ISS + 1) % MODULUS) && Recorded(clients, d, n)));
      }
    }
    forall r | Answered(clients, content, n, r)
      ensures Answered(clients, content, m, r)
    {
      var d :| d in clients && GoodReply(content, d, r) && Recorded(clients, d, n);
    }
  }

  /** A receiver reads the client's SYN-ACK: sequence ISS, acknowledging its ISN + 1. */
  ghost predicate ReadsAsSynAck(c: Client, p: Bytes) {
    Parse(p) == Some(Segment([10, 0, 2, 15], c.ip, 80, c.port, 0xCAFE_BABE, (c.isn + 1) % 0x1_0000_0000, 24, 0x12, 20, 44))
  }

  /** A receiver reads the response: sequence ISS + 1, acknowledging exactly the client's bytes, with the content inside. */
  ghost predicate ReadsAsResponse(content: Bytes, c: Client, p: Bytes) {
    var s := Segment([10, 0, 2, 15], c.ip, 80, c.port, 0xCAFE_BABF, (c.isn + 1 + |c.request|) % 0x1_0000_0000,
                     20, 0x18, 20, 40 + |Response(content)|);
    Parse(p) == Some(s) && Payload(p, s) == Some(Response(content))
  }

  lemma GoodReplyReads(content: Bytes, c: Client, h: Header, body: Bytes, padding: Bytes)
    requires Fitting(h, body) && GoodReply(content, c, (h, body))
    ensures var p := Sent(h, body) + padding;
            if h.flags == 0x12 then ReadsAsSynAck(c, p) else ReadsAsResponse(content, c, p)
  {
    hide Finished, Sent, Parse, Payload, Response, AreBytes;
    FittingIsSentWhole(h, body);
    FinishedRoundTrip(h, body, padding);
    ResponseNonEmpty(content);
  }

  /** A client that accepts a reply was the one it was for, and the reply was its SYN-ACK. */
  lemma AcceptedReply(clients: set<Client>, content: Bytes, n: Net, c: Client, r: (Header, Bytes), padding: Bytes)
    requires c in clients && Answered(clients, content, n, r)
    requires Accepts(c, Sent(r.0, r.1) + padding)
    ensures Recorded(clients, c, n) && Parse(Sent(r.0, r.1) + padding).value.seqNum == ISS
  {
    hide Parse, Sent, Fitting, Payload, Response, GoodReply;
    var d :| d in clients && GoodReply(content, d, r) && Recorded(clients, d, n);
    GoodReplyReads(content, d, r.0, r.1, padding);
    assert !Syn(0x18);
  }

  lemma SendInv(clients: set<Client>, content: Bytes, n: Net, e: Event)
    requires Inv(clients, content, n) && Allowed(clients, n, e) && !e.Deliver?
    ensures Inv(clients, content, Next(content, n, e))
  {
    var m := Next(content, n, e);
    hide IsSyn, IsRequest, AsksNothing, GoodReply, Accepts, Sent, Fitting, Parse;
    if e.SendRequest? {
      var r := n.replies[e.reply].value;
      AcceptedReply(clients, content, n, e.c, r, e.padding);
    }
    assert GoodFrame(clients, n, e.p);
    GoodKept(clients, content, n, m);
  }

  /** A delivery that asks for nothing gets no answer from either engine. */
  lemma DeliverNothing(clients: set<Client>, content: Bytes, n: Net, e: Event)
    requires Inv(clients, content, n) && e.Deliver? && e.index < |n.sent| && AsksNothing(n.sent[e.index])
    ensures Inv(clients, content, Next(content, n, e))
  {
    var p := n.sent[e.index];
    var m := Next(content, n, e);
    assert m.conns == n.conns && m.replies == n.replies + [None] && m.reference == n.reference + [None];
    hide IsSyn, IsRequest, AsksNothing, GoodReply, Fitting;
    GoodKept(clients, content, n, m);
  }

  lemma DeliverClient(clients: set<Client>, content: Bytes, n: Net, e: Event, c: Client)
    requires Servable(content) && Inv(clients, content, n) && Allowed(clients, n, e) && e.Deliver?
    requires c in clients
    requires var p := n.sent[e.index]; IsSyn(p, c) || (IsRequest(p, c, (ISS + 1) % MODULUS) && Recorded(clients, c, n))
    ensures Inv(clients, content, Next(content, n, e))
  {
    var p := n.sent[e.index];
    var m := Next(content, n, e);
    hide IsSyn, IsRequest, AsksNothing, GoodReply, Fitting, Reply, ReferenceReply, Remembered, Servable;
    DeliverGood(clients, content, n, p, c, e.arp);
    ReplyFits(e.arp, content, p);
    forall d | d in clients && Recorded(clients, d, n)
      ensures Recorded(clients, d, m)
    {
      if ToldApart(clients) { KnownKept(clients, n, m, c, d); }
    }
    GoodKept(clients, content, n, m);
    assert Recorded(clients, c, m);
    assert Answered(clients, content, m, Reply(e.arp, content, p).value);
  }

  lemma DeliverInv(clients: set<Client>, content: Bytes, n: Net, e: Event)
    requires Servable(content) && Inv(clients, content, n) && Allowed(clients, n, e) && e.Deliver?
    ensures Inv(clients, content, Next(content, n, e))
  {
    var p := n.sent[e.index];
    hide IsSyn, IsRequest, AsksNothing, GoodReply, Fitting, Servable, Next, Recorded;
    assert GoodFrame(clients, n, p);
    if AsksNothing(p) {
      DeliverNothing(clients, content, n, e);
    } else {
      var c :| c in clients && (IsSyn(p, c) || (IsRequest(p, c, (ISS + 1) % MODULUS) && Recorded(clients, c, n)));
      DeliverClient(clients, content, n, e, c);
    }
  }

  lemma {:induction false} RunInv(clients: set<Client>, content: Bytes, es: seq<Event>)
    requires Servable(content) && Conforming(clients, content, es)
    ensures Inv(clients, content, Run(content, es))
  {
    hide Inv, Next, Allowed, Servable;
    if es == [] {
      assert Inv(clients, content, START) by { StartInv(clients, content); }
    } else {
      var before, e := es[..|es| - 1], es[|es| - 1];
      RunInv(clients, content, before);
      if e.Deliver? { DeliverInv(clients, content, Run(content, before), e); } else { SendInv(clients, content, Run(content, before), e); }
    }
  }

  lemma StartInv(clients: set<Client>, content: Bytes)
    ensures Inv(clients, content, START)
  {}

  // ---------- what every run guarantees ----------

  /** The engine that keeps nothing answers every delivery as the one that keeps a record per connection. */
  lemma StatelessActsStateful(clients: set<Client>, content: Bytes, es: seq<Event>)
    requires ToldApart(clients) && Servable(content) && Conforming(clients, content, es)
    ensures Run(content, es).replies == Run(content, es).reference
  {
    RunInv(clients, content, es);
  }

  /** Every reply is addressed by the ARP table at its delivery. */
  lemma {:induction false} RepliesAddressed(content: Bytes, es: seq<Event>)
    ensures var n := Run(content, es);
            && |n.tables| == |n.replies|
            && forall i | 0 <= i < |n.replies| && n.replies[i].Some? ::
                 n.replies[i].value.0.mac == TargetMac(n.tables[i], n.replies[i].value.0.ip)
  {
    hide TargetMac, Demanded, Response;
    if es != [] { RepliesAddressed(content, es[..|es| - 1]); }
  }

  /** A frame from this host to `mac`. */
  ghost predicate FromHostTo(p: Bytes, mac: Bytes) {
    |p| >= 12 && p[0..6] == mac && p[6..12] == [0x52, 0x54, 0x00, 0x12, 0x34, 0x56]
  }

  lemma SentAddressed(h: Header, body: Bytes, padding: Bytes)
    requires Fitting(h, body)
    ensures FromHostTo(Sent(h, body) + padding, h.mac)
  {
    hide Finished, Sent, AreBytes;
    FittingIsSentWhole(h, body);
    FinishedSpelled(h, body, padding);
  }

  /** What a receiver reads in any reply of any run, padded or not, whether or not ports are reused. */
  lemma RepliesOnTheWire(clients: set<Client>, content: Bytes, es: seq<Event>, i: nat, padding: Bytes)
    requires Servable(content) && Conforming(clients, content, es)
    requires i < |Run(content, es).replies| && Run(content, es).replies[i].Some?
    ensures i < |Run(content, es).tables|
    ensures var (h, body) := Run(content, es).replies[i].value;
            && Fitting(h, body)
            && var p := Sent(h, body) + padding;
               exists c :: c in clients && (ReadsAsSynAck(c, p) || ReadsAsResponse(content, c, p))
                           && FromHostTo(p, TargetMac(Run(content, es).tables[i], c.ip))
  {
    hide Run, Fitting, Sent, Recorded, ReadsAsSynAck, ReadsAsResponse, Conforming, Servable, TargetMac, FromHostTo;
    RunInv(clients, content, es);
    RepliesAddressed(content, es);
    var n := Run(content, es);
    var r := n.replies[i].value;
    assert Answered(clients, content, n, r);
    var c :| c in clients && GoodReply(content, c, r) && Recorded(clients, c, n);
    GoodReplyReads(content, c, r.0, r.1, padding);
    SentAddressed(r.0, r.1, padding);
  }

  lemma ResponseNonEmpty(content: Bytes)
    ensures Response(content) != []
  {}

  // ---------- the engine byte by byte ----------

  /** IPv4 TCP for 10.0.2.15 port 80, long enough for its headers. */
  ghost predicate ForUs(p: Bytes) {
    && |p| >= 34 && p[12..14] == [0x08, 0x00] && p[23] == 6 && p[30..34] == [10, 0, 2, 15]
    && |p| >= 34 + p[14] % 16 * 4
    && var t := 14 + p[14] % 16 * 4; p[t + 2] == 0 && p[t + 3] == 80
  }

  /** Where the TCP header starts, where the payload starts, and where the IP packet ends. */
  ghost function TcpStart(p: Bytes): int
    requires ForUs(p)
  {
    14 + p[14] % 16 * 4
  }

  ghost function DataStart(p: Bytes): int
    requires ForUs(p)
  {
    TcpStart(p) + p[TcpStart(p) + 12] / 16 * 4
  }

  ghost function End(p: Bytes): int
    requires ForUs(p)
  {
    14 + p[16] * 256 + p[17]
  }

  ghost predicate HasSyn(p: Bytes)
    requires ForUs(p)
  {
    p[TcpStart(p) + 13] / 2 % 2 == 1
  }

  /** Without SYN and with PSH, a payload that starts with the letters G, E, T. */
  ghost predicate HasGet(p: Bytes)
    requires ForUs(p) && AreBytes(p)
  {
    && !HasSyn(p) && p[TcpStart(p) + 13] / 8 % 2 == 1
    && DataStart(p) + 3 <= End(p) <= |p|
    && p[DataStart(p)] == 0x47 && p[DataStart(p) + 1] == 0x45 && p[DataStart(p) + 2] == 0x54
  }

  lemma ForUsExactly(p: Bytes)
    requires AreBytes(p)
    ensures ForUs(p) <==> Parse(p).Some? && Parse(p).value.destIp == MY_IP && Parse(p).value.destPort == 80
  {
    ParsedFields(p);
    if ForUs(p) { assert p[12] == p[12..14][0] && p[13] == p[12..14][1]; }
    hide Parse;
  }

  lemma FlagBits(b: int, c: int)
    requires 0 <= b < 256 && 0 <= c < 256
    ensures Syn(b % 2 * 256 + c) <==> c / 2 % 2 == 1
    ensures Psh(b % 2 * 256 + c) <==> c / 8 % 2 == 1
  {
    Quotient(b % 2 * 256 + c, 2, b % 2 * 128 + c / 2, c % 2);
    Quotient(b % 2 * 256 + c, 8, b % 2 * 32 + c / 8, c % 8);
  }

  lemma GetExactly(p: Bytes)
    requires AreBytes(p) && ForUs(p) && Parse(p).Some?
    ensures var s := Parse(p).value;
            && s.ipHeaderLength >= 0 && s.headerLength >= 0
            && var data := Payload(p, s);
               && (data.Some? && StartsWith(data.value, GET) <==>
                   && DataStart(p) + 3 <= End(p) <= |p|
                   && p[DataStart(p)] == 0x47 && p[DataStart(p) + 1] == 0x45 && p[DataStart(p) + 2] == 0x54)
               && (data.Some? ==> |data.value| == End(p) - DataStart(p))
  {
    ParsedFields(p);
    PayloadInBounds(p);
    hide Parse, Payload, ForUs;
    var s := Parse(p).value;
    if Payload(p, s).Some? {
      var data := p[DataStart(p)..End(p)];
      assert Payload(p, s).value == data;
      assert |data| >= 3 ==> data[0] == p[DataStart(p)] && data[1] == p[DataStart(p) + 1] && data[2] == p[DataStart(p) + 2];
      assert StartsWith(data, GET) <==> |data| >= 3 && data[0] == 0x47 && data[1] == 0x45 && data[2] == 0x54;
    }
  }

  /** What a packet asks for, for every byte string. */
  lemma DemandExactly(p: Bytes)
    requires AreBytes(p)
    ensures Demanded(p).Handshake? <==> ForUs(p) && HasSyn(p)
    ensures Demanded(p).Request? <==> ForUs(p) && HasGet(p)
    ensures Demanded(p) != Nothing ==> Parse(p) == Some(Demanded(p).s)
    ensures Demanded(p).Request? ==> Demanded(p).length == End(p) - DataStart(p)
  {
    ForUsExactly(p);
    ParsedFields(p);
    hide Parse, Payload, StartsWith, Syn, Psh;
    if ForUs(p) {
      var t := TcpStart(p);
      FlagBits(p[t + 12], p[t + 13]);
      GetExactly(p);
    }
  }

  /**
   Which packets are answered and how, for every byte string. A SYN gets flags 0x12 at sequence number
   0xCAFEBABE and an acknowledgement one beyond its own number; a GET gets flags 0x18 at the number it
   acknowledged and an acknowledgement of its payload's last byte. Both go back to the sender.
   */
  lemma AnswersOnlyItsOwn(arp: seq<Entry>, content: Bytes, p: Bytes)
    requires AreBytes(p)
    ensures Reply(arp, content, p).Some? <==> ForUs(p) && (HasSyn(p) || HasGet(p))
    ensures Reply(arp, content, p).Some? ==>
      var (h, body), t := Reply(arp, content, p).value, TcpStart(p);
      && h.ip == p[26..30] && h.port == p[t] * 256 + p[t + 1]
      && if HasSyn(p)
         then h.flags == 0x12 && h.length == 24 && body == []
              && h.seqNum == 0xCAFE_BABE && h.ackNum == (Big4(p, t + 4) + 1) % 0x1_0000_0000
         else h.flags == 0x18 && h.length == 20 && body == Response(content)
              && h.seqNum == Big4(p, t + 8) && h.ackNum == (Big4(p, t + 4) + (End(p) - DataStart(p))) % 0x1_0000_0000
  {
    hide Parse, Payload, Demanded, TargetMac, Response, HasSyn, HasGet, DataStart, End;
    DemandExactly(p);
    ParsedFields(p);
  }

  ghost predicate ValidClaims(history: seq<Claim>) {
    forall c | c in history :: |c.mac| == 6 && AreBytes(c.mac)
  }

  lemma {:induction false} ClaimedTableValid(history: seq<Claim>)
    requires ValidClaims(history)
    ensures ValidTable(Table(history))
  {
    if history != [] {
      var before, last := history[..|history| - 1], history[|history| - 1];
      ClaimedTableValid(before);
      assert last in history;
    }
  }

  /** On the wire, every reply goes to the MAC last claimed for the sender, if its address got a slot, and to everyone otherwise. */
  lemma ReplyAddressedByHistory(history: seq<Claim>, content: Bytes, p: Bytes, padding: Bytes)
    requires AreBytes(p) && ValidClaims(history) && Servable(content) && Reply(Table(history), content, p).Some?
    ensures |p| >= 34
    ensures var (h, body), ip := Reply(Table(history), content, p).value, p[26..30];
            && Fitting(h, body)
            && FromHostTo(Sent(h, body) + padding,
                          if ip in Kept(history) && Latest(history, ip).Some? then Latest(history, ip).value
                          else [0xFF, 0xFF, 0xFF, 0xFF, 0xFF, 0xFF])
  {
    ClaimedTableValid(history);
    AnswersOnlyItsOwn(Table(history), content, p);
    ReplyFits(Table(history), content, p);
    LookupAnswersHistory(history, p[26..30]);
    hide Demanded, Table, Kept, Latest, Response, Fitting, Sent, FromHostTo, ForUs, HasSyn, HasGet, Servable, AreBytes;
    var (h, body) := Reply(Table(history), content, p).value;
    SentAddressed(h, body, padding);
  }

  /** Exactly when a request is answered as the reference would: it must carry the numbers the handshake set. */
  lemma StatelessExact(arp: seq<Entry>, content: Bytes, conns: Connections, p: Bytes)
    requires AreBytes(p) && Demanded(p).Request?
    ensures var s := Demanded(p).s;
            Reply(arp, content, p) == ReferenceReply(arp, content, conns, p) <==>
            && (s.srcIp, s.srcPort) in conns
            && s.ackNum == 0xCAFE_BABF
            && s.seqNum % 0x1_0000_0000 == (conns[(s.srcIp, s.srcPort)] + 1) % 0x1_0000_0000
  {
    hide Demanded, TargetMac, Response;
    var s, n := Demanded(p).s, Demanded(p).length;
    if (s.srcIp, s.srcPort) in conns {
      var k := conns[(s.srcIp, s.srcPort)] + 1;
      Mod(s.seqNum, n);
      Mod(k, n);
      Mod(s.seqNum + n, -n);
      Mod(k + n, -n);
    }
  }
}
