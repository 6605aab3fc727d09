/** Frames that a conforming client sends, and the run in which it gets its page. */
module Clients {
  import opened Wrappers
  import opened Checksum
  import opened Frames
  import opened ArpCache
  import opened Http
  import opened TcpEngine

  ghost predicate Proper(c: Client) {
    && |c.mac| == 6 && AreBytes(c.mac) && |c.ip| == 4 && AreBytes(c.ip) && IsU16(c.port) && IsU32(c.isn)
    && AreBytes(c.request) && StartsWith(c.request, GET) && 40 + |c.request| < 0x1_0000
  }

  function IpFields(c: Client, total: int): (r: Bytes)
    requires |c.ip| == 4
    ensures |r| == 20
  {
    [0x45, 0] + Be16(total) + [0, 0, 0, 0, 64, 6, 0, 0] + c.ip + MY_IP
  }

  function TcpFields(c: Client, seqNum: int, ackNum: int, flags: int): (r: Bytes)
    ensures |r| == 20
  {
    Be16(c.port) + Be16(80) + Be32(seqNum) + Be32(ackNum) + [0x50, flags] + [0, 0, 0, 0, 0, 0]
  }

  function Ethernet(c: Client): (r: Bytes)
    requires |c.mac| == 6
    ensures |r| == 14
  {
    MY_MAC + c.mac + [0x08, 0x00]
  }

  function Frame(c: Client, seqNum: int, ackNum: int, flags: int, body: Bytes): (r: Bytes)
    requires |c.mac| == 6 && |c.ip| == 4
    ensures |r| == 54 + |body|
  {
    Ethernet(c) + IpFields(c, 40 + |body|) + TcpFields(c, seqNum, ackNum, flags) + body
  }

  lemma IpSlices(c: Client, total: int)
    requires |c.ip| == 4
    ensures var q := IpFields(c, total);
            q[0] == 0x45 && q[2..4] == Be16(total) && q[9] == 6 && q[12..16] == c.ip && q[16..20] == MY_IP
  {}

  lemma TcpSlices(c: Client, seqNum: int, ackNum: int, flags: int)
    ensures var q := TcpFields(c, seqNum, ackNum, flags);
            && q[0..2] == Be16(c.port) && q[2..4] == Be16(80) && q[4..8] == Be32(seqNum) && q[8..12] == Be32(ackNum)
            && q[12] == 0x50 && q[13] == flags
  {
    hide Be16, Be32;
  }

  lemma FrameSlices(c: Client, seqNum: int, ackNum: int, flags: int, body: Bytes)
    requires |c.mac| == 6 && |c.ip| == 4
    ensures var p := Frame(c, seqNum, ackNum, flags, body);
            && p[12] == 0x08 && p[13] == 0x00 && p[14] == 0x45 && p[23] == 6
            && p[16..18] == Be16(40 + |body|) && p[26..30] == c.ip && p[30..34] == MY_IP
            && p[34..36] == Be16(c.port) && p[36..38] == Be16(80) && p[38..42] == Be32(seqNum) && p[42..46] == Be32(ackNum)
            && p[46] == 0x50 && p[47] == flags && p[54..] == body
  {
    IpSlices(c, 40 + |body|);
    TcpSlices(c, seqNum, ackNum, flags);
    var p, i, t := Frame(c, seqNum, ackNum, flags, body), IpFields(c, 40 + |body|), TcpFields(c, seqNum, ackNum, flags);
    hide IpFields, TcpFields, Be16, Be32;
    assert p[16..18] == i[2..4] && p[26..30] == i[12..16] && p[30..34] == i[16..20];
    assert p[34..36] == t[0..2] && p[36..38] == t[2..4] && p[38..42] == t[4..8] && p[42..46] == t[8..12];
  }

  lemma FrameParses(c: Client, seqNum: int, ackNum: int, flags: int, body: Bytes)
    requires Proper(c) && IsU32(seqNum) && IsU32(ackNum) && 0 <= flags < 0x100 && 40 + |body| < 0x1_0000
    ensures var p := Frame(c, seqNum, ackNum, flags, body);
            var s := Segment(c.ip, MY_IP, c.port, 80, seqNum, ackNum, 20, flags, 20, 40 + |body|);
            Parse(p) == Some(s) && Payload(p, s) == if body == [] then None else Some(body)
  {
    hide Frame, Be16, Be32;
    FrameSlices(c, seqNum, ackNum, flags, body);
    var p := Frame(c, seqNum, ackNum, flags, body);
    FieldAt16(p, 16, 40 + |body|);
    FieldAt16(p, 34, c.port);
    FieldAt16(p, 36, 80);
    FieldAt32(p, 38, seqNum);
    FieldAt32(p, 42, ackNum);
    assert Get16(p, 12) == 0x0800;
    assert Get16(p, 46) == 0x5000 + flags;
    assert (0x5000 + flags) / 0x1000 == 5 && (0x5000 + flags) % 0x200 == flags;
    assert p[54..54 + |body|] == body;
  }

  lemma FrameBytes(c: Client, seqNum: int, ackNum: int, flags: int, body: Bytes)
    requires |c.mac| == 6 && AreBytes(c.mac) && |c.ip| == 4 && AreBytes(c.ip) && 0 <= flags < 0x100 && AreBytes(body)
    ensures AreBytes(Frame(c, seqNum, ackNum, flags, body))
  {
    assert AreBytes(Ethernet(c));
    assert AreBytes(IpFields(c, 40 + |body|));
    assert AreBytes(TcpFields(c, seqNum, ackNum, flags));
    hide Ethernet, IpFields, TcpFields;
    BytesConcat(Ethernet(c), IpFields(c, 40 + |body|));
    BytesConcat(Ethernet(c) + IpFields(c, 40 + |body|), TcpFields(c, seqNum, ackNum, flags));
    BytesConcat(Ethernet(c) + IpFields(c, 40 + |body|) + TcpFields(c, seqNum, ackNum, flags), body);
  }

  function SynFrame(c: Client): Bytes
    requires |c.mac| == 6 && |c.ip| == 4
  {
    Frame(c, c.isn, 0, 0x02, [])
  }

  function RequestFrame(c: Client, ack: int): Bytes
    requires |c.mac| == 6 && |c.ip| == 4
  {
    Frame(c, (c.isn + 1) % MODULUS, ack, 0x18, c.request)
  }

  lemma SynIsGood(c: Client)
    requires Proper(c)
    ensures IsSyn(SynFrame(c), c)
  {
    FrameParses(c, c.isn, 0, 0x02, []);
    FrameBytes(c, c.isn, 0, 0x02, []);
    hide Frame, Parse, Payload;
  }

  /** What the engine makes of a pushed segment. */
  lemma PushDemands(p: Bytes, s: Segment, data: Bytes)
    requires AreBytes(p) && Parse(p) == Some(s) && s.destIp == MY_IP && s.destPort == 80 && s.flags == 0x18
    requires s.ipHeaderLength >= 0 && s.headerLength >= 0 && Payload(p, s) == Some(data) && StartsWith(data, GET)
    ensures Demanded(p) == Request(s, |data|)
  {
    hide AreBytes, Parse, Payload, StartsWith;
  }

  lemma GetNonEmpty(data: Bytes)
    requires StartsWith(data, GET)
    ensures data != []
  {}

  lemma RequestIsGood(c: Client, ack: int)
    requires Proper(c) && IsU32(ack)
    ensures IsRequest(RequestFrame(c, ack), c, ack)
  {
    hide Frame, Parse, Payload, Demanded, AreBytes, StartsWith;
    var next := (c.isn + 1) % MODULUS;
    assert IsU32(next);
    assert c.request != [] by { GetNonEmpty(c.request); }
    FrameParses(c, next, ack, 0x18, c.request);
    FrameBytes(c, next, ack, 0x18, c.request);
    PushDemands(RequestFrame(c, ack), Segment(c.ip, MY_IP, c.port, 80, next, ack, 20, 0x18, 20, 40 + |c.request|), c.request);
  }

  /** Every proper client has a SYN and a request that the engine recognises as such. */
  lemma ClientFramesAreGood(c: Client, ack: int)
    requires Proper(c) && IsU32(ack)
    ensures IsSyn(SynFrame(c), c)
    ensures IsRequest(RequestFrame(c, ack), c, ack)
  {
    hide SynFrame, RequestFrame, IsSyn, IsRequest;
    SynIsGood(c);
    RequestIsGood(c, ack);
  }

  /**
   Why clients must be told apart: after a SYN from the same address and port, a request of the earlier
   connection is answered as the recording engine would only if both opened with the same number.
   */
  lemma ReusedPortDiverges(c: Client, d: Client, content: Bytes, arp: seq<Entry>, conns: Connections)
    requires Proper(c) && Proper(d) && c.ip == d.ip && c.port == d.port
    ensures IsSyn(SynFrame(d), d) && IsRequest(RequestFrame(c, (ISS + 1) % MODULUS), c, (ISS + 1) % MODULUS)
    ensures var p := RequestFrame(c, (ISS + 1) % MODULUS);
            Reply(arp, content, p) == ReferenceReply(arp, content, Remembered(conns, SynFrame(d)), p) <==> c.isn == d.isn
  {
    hide SynFrame, RequestFrame, Demanded, Reply, ReferenceReply, AreBytes, Payload, StartsWith;
    var p := RequestFrame(c, (ISS + 1) % MODULUS);
    SynIsGood(d);
    RequestIsGood(c, (ISS + 1) % MODULUS);
    StatelessExact(arp, content, Remembered(conns, SynFrame(d)), p);
    NextIsn(c.isn, d.isn);
  }

  lemma NextIsn(a: int, b: int)
    requires IsU32(a) && IsU32(b)
    ensures (a + 1) % MODULUS % MODULUS == (b + 1) % MODULUS <==> a == b
  {}

  // ---------- one whole conversation ----------

  function Conversation(c: Client, arp: seq<Entry>): seq<Event>
    requires |c.mac| == 6 && |c.ip| == 4
  {
    [SendSyn(c, SynFrame(c)), Deliver(0, arp), SendRequest(c, RequestFrame(c, (ISS + 1) % MODULUS), 0, []), Deliver(1, arp)]
  }

  lemma RunSnoc(content: Bytes, es: seq<Event>, e: Event)
    ensures Run(content, es + [e]) == Next(content, Run(content, es), e)
  {
    assert (es + [e])[..|es|] == es;
  }

  lemma ConformingSnoc(clients: set<Client>, content: Bytes, es: seq<Event>, e: Event)
    requires Conforming(clients, content, es) && Allowed(clients, Run(content, es), e)
    ensures Conforming(clients, content, es + [e])
  {
    assert (es + [e])[..|es|] == es;
  }

  /** The ARP table does not name another station for the client's address. */
  ghost predicate Truthful(arp: seq<Entry>, c: Client) { Lookup(arp, c.ip) == None || Lookup(arp, c.ip) == Some(c.mac) }

  lemma ReachesClient(c: Client, arp: seq<Entry>, h: Header, body: Bytes)
    requires Truthful(arp, c) && Fitting(h, body) && h.mac == TargetMac(arp, c.ip)
    ensures Receives(c, Sent(h, body) + [])
  {
    hide Sent, Fitting, Lookup;
    SentAddressed(h, body, []);
    SentLength(h, body);
  }

  lemma SentLength(h: Header, body: Bytes)
    requires Fitting(h, body)
    ensures |Sent(h, body)| >= 54
  {
    hide Finished, Verifies, Built, Sent;
    FittingIsSentWhole(h, body);
    FinishedSums(h, body, 20 + h.length + |body|);
  }

  /** The first two events: the SYN goes out and is answered. */
  lemma Handshaken(c: Client, content: Bytes, arp: seq<Entry>)
    requires Proper(c) && ValidTable(arp) && Servable(content)
    ensures var es := [] + [SendSyn(c, SynFrame(c))] + [Deliver(0, arp)];
            var n := Run(content, es);
            && Conforming({c}, content, es)
            && n.sent == [SynFrame(c)] && |n.replies| == 1 && n.replies[0].Some?
            && Fitting(n.replies[0].value.0, n.replies[0].value.1)
            && GoodReply(content, c, n.replies[0].value) && n.replies[0].value.0.flags == 0x12 && Known(c, n)
            && n.replies[0].value.0.mac == TargetMac(arp, c.ip)
  {
    var e1: seq<Event> := [] + [SendSyn(c, SynFrame(c))];
    ClientFramesAreGood(c, 0);
    var p := SynFrame(c);
    DeliverGood({c}, content, Run(content, e1), p, c, arp);
    ReplyFits(arp, content, p);
    hide SynFrame, RequestFrame, Servable, ValidTable, Fitting;
    RunSnoc(content, [], SendSyn(c, p));
    ConformingSnoc({c}, content, [], SendSyn(c, p));
    RunSnoc(content, e1, Deliver(0, arp));
    ConformingSnoc({c}, content, e1, Deliver(0, arp));
  }

  /** The SYN-ACK is one that the client accepts, so it may send its request. */
  lemma RequestAllowed(c: Client, content: Bytes, arp: seq<Entry>, n: Net)
    requires Proper(c) && Truthful(arp, c) && |n.replies| == 1 && n.replies[0].Some?
    requires Fitting(n.replies[0].value.0, n.replies[0].value.1)
    requires GoodReply(content, c, n.replies[0].value) && n.replies[0].value.0.flags == 0x12
    requires n.replies[0].value.0.mac == TargetMac(arp, c.ip)
    ensures Allowed({c}, n, SendRequest(c, RequestFrame(c, (ISS + 1) % MODULUS), 0, []))
  {
    hide Sent, Parse, Fitting, RequestFrame, SynFrame, IsRequest, Payload, Response, GoodReply, Receives, TargetMac, Truthful;
    var (h, body) := n.replies[0].value;
    ReachesClient(c, arp, h, body);
    GoodReplyReads(content, c, h, body, []);
    ClientFramesAreGood(c, (ISS + 1) % MODULUS);
    assert Syn(0x12);
  }

  /** The request, once delivered, is answered by a response that reads as one. */
  lemma RequestAnswered(c: Client, content: Bytes, arp: seq<Entry>, n: Net)
    requires Proper(c) && ValidTable(arp) && Truthful(arp, c) && Servable(content) && Known(c, n)
    ensures var p := RequestFrame(c, (ISS + 1) % MODULUS);
            && AreBytes(p)
            && var r := Reply(arp, content, p);
               && r.Some? && Fitting(r.value.0, r.value.1)
               && ReadsAsResponse(content, c, Sent(r.value.0, r.value.1)) && Receives(c, Sent(r.value.0, r.value.1))
  {
    var p := RequestFrame(c, (ISS + 1) % MODULUS);
    ClientFramesAreGood(c, (ISS + 1) % MODULUS);
    DeliverGood({c}, content, n, p, c, arp);
    assert Demanded(p).Request? && Reply(arp, content, p).value.0.mac == TargetMac(arp, c.ip);
    hide Truthful, Receives, Reply, RequestFrame, SynFrame, Servable, ValidTable, Fitting, Sent, Parse, Payload, Response, GoodReply, TargetMac, IsRequest, ReadsAsResponse, Demanded;
    ReplyFits(arp, content, p);
    var (h, body) := Reply(arp, content, p).value;
    GoodReplyReads(content, c, h, body, []);
    ReachesClient(c, arp, h, body);
    assert Sent(h, body) + [] == Sent(h, body);
  }

  /** Every proper client can complete its handshake and be served: conforming runs reach a response. */
  lemma ClientIsServed(c: Client, content: Bytes, arp: seq<Entry>)
    requires Proper(c) && ValidTable(arp) && Truthful(arp, c) && Servable(content)
    ensures Conforming({c}, content, Conversation(c, arp))
    ensures var n := Run(content, Conversation(c, arp));
            && |n.replies| == 2 && n.replies[1].Some?
            && Fitting(n.replies[1].value.0, n.replies[1].value.1)
            && var p := Sent(n.replies[1].value.0, n.replies[1].value.1); Receives(c, p) && ReadsAsResponse(content, c, p)
  {
    hide Run, Conforming, SynFrame, RequestFrame, Servable, ValidTable, Fitting, GoodReply, Reply, ReferenceReply,
         Remembered, ReadsAsResponse, Sent, IsSyn, IsRequest, Accepts, Known, Receives, Truthful, TargetMac;
    var p := RequestFrame(c, (ISS + 1) % MODULUS);
    var e2: seq<Event> := [] + [SendSyn(c, SynFrame(c))] + [Deliver(0, arp)];
    var e3, last := e2 + [SendRequest(c, p, 0, [])], Deliver(1, arp);
    Handshaken(c, content, arp);
    RequestAllowed(c, content, arp, Run(content, e2));
    RequestAnswered(c, content, arp, Run(content, e2));
    RunSnoc(content, e2, SendRequest(c, p, 0, []));
    ConformingSnoc({c}, content, e2, SendRequest(c, p, 0, []));
    RunSnoc(content, e3, last);
    ConformingSnoc({c}, content, e3, last);
    assert Conversation(c, arp) == e3 + [last];
  }
}
