/** The receive path end to end: a packet in, at most one checksummed frame posted for transmission. */
module Server {
  import opened Wrappers
  import opened Checksum
  import opened Frames
  import opened ArpCache
  import opened TcpEngine
  import Tx = TxRing
  import Http

  /** The ring after a reply has been posted, with the NIC fetching meanwhile, or as it was if there is none. */
  ghost function Transmitted(s: Tx.State, r: Option<(Header, Bytes)>, fetches: nat -> nat): Tx.State
    requires Tx.Shape(s) && (r.Some? ==> Fitting(r.value.0, r.value.1))
  {
    if r.None? then s else Tx.Run(s, Tx.PostActions(Finished(r.value.0, r.value.1), fetches))
  }

  /** What a reply does to the line of frames: it comes last, whole, and the ring stays in order while the NIC keeps pace. */
  lemma ReplyInLine(s: Tx.State, h: Header, body: Bytes, fetches: nat -> nat)
    requires Tx.Shape(s) && s.phase == Tx.Ready && Fitting(h, body)
    ensures var t := Transmitted(s, Some((h, body)), fetches);
            && t.phase == Tx.Ready && t.posted == s.posted + [Finished(h, body)] && s.sent <= t.sent
            && (Tx.Inv(s) && Tx.Unfetched(s) < 7 ==> Tx.Inv(t))
  {
    hide Finished, AreBytes, Tx.Run, Tx.Inv, Tx.PostActions, Tx.Wire, Tx.Unfetched;
    FittingIsSentWhole(h, body);
    Tx.PostInterleaved(s, Finished(h, body), fetches);
  }

  method ResolveMac(cache: Cache, ip: Bytes) returns (mac: Bytes)
    requires cache.Valid()
    ensures mac == TargetMac(cache.entries[..], ip)
  {
    var found := cache.LookupMac(ip);
    mac := if found.Some? then found.value else [0xFF, 0xFF, 0xFF, 0xFF, 0xFF, 0xFF];
  }

  method SendTcpSynAck(mac: Bytes, s: Segment, nic: Tx.Driver, fetches: nat -> nat)
    requires Tx.Shape(nic.View()) && nic.phase == Tx.Ready && Fitting(SynAck(mac, s, s.seqNum + 1), [])
    modifies nic, nic.ring
    ensures nic.phase == Tx.Ready && Tx.Shape(nic.View())
    ensures nic.View() == Tx.Run(old(nic.View()), Tx.PostActions(Finished(SynAck(mac, s, s.seqNum + 1), []), fetches))
  {
    var frame := FinishFrame(SynAck(mac, s, s.seqNum + 1), []);
    nic.PostFrame(frame[..], fetches);
  }

  method SendHttpResponse(mac: Bytes, s: Segment, length: int, content: Bytes, nic: Tx.Driver, fetches: nat -> nat)
    requires Tx.Shape(nic.View()) && nic.phase == Tx.Ready && Fitting(Answer(mac, s, s.ackNum, s.seqNum + length), Http.Response(content))
    modifies nic, nic.ring
    ensures nic.phase == Tx.Ready && Tx.Shape(nic.View())
    ensures nic.View() ==
            Tx.Run(old(nic.View()), Tx.PostActions(Finished(Answer(mac, s, s.ackNum, s.seqNum + length), Http.Response(content)), fetches))
  {
    var frame := FinishFrame(Answer(mac, s, s.ackNum, s.seqNum + length), Http.Response(content));
    nic.PostFrame(frame[..], fetches);
  }

  method HandleIncomingPacket(packet: Bytes, cache: Cache, content: Bytes, nic: Tx.Driver, fetches: nat -> nat)
    requires AreBytes(packet) && cache.Valid() && ValidTable(cache.entries[..]) && Servable(content)
    requires Tx.Shape(nic.View()) && nic.phase == Tx.Ready
    modifies nic, nic.ring
    ensures var r := Reply(old(cache.entries[..]), content, packet);
            && (r.Some? ==> Fitting(r.value.0, r.value.1))
            && nic.phase == Tx.Ready && nic.View() == Transmitted(old(nic.View()), r, fetches)
  {
    hide Parse, Finished, Tx.Run, Tx.PostActions, Fitting, Servable, Demanded;
    ghost var arp := cache.entries[..];
    if Reply(arp, content, packet).Some? { ReplyFits(arp, content, packet); }
    match Demanded(packet) {
      case Nothing =>
      case Handshake(s) =>
        var mac := ResolveMac(cache, s.srcIp);
        SendTcpSynAck(mac, s, nic, fetches);
      case Request(s, length) =>
        var mac := ResolveMac(cache, s.srcIp);
        SendHttpResponse(mac, s, length, content, nic, fetches);
    }
  }
}
