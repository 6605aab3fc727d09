/** Ethernet frames that carry TCP over IPv4: the builder, and the parser that reads them. */
module Frames {
  import opened Wrappers
  import opened Arithmetic
  import opened Checksum

  const MY_MAC: Bytes := [0x52, 0x54, 0x00, 0x12, 0x34, 0x56]
  const MY_IP: Bytes := [10, 0, 2, 15]

  predicate IsU16(n: int) { 0 <= n < 0x1_0000 }
  predicate IsU32(n: int) { 0 <= n < 0x1_0000_0000 }

  // to_be_bytes and from_be
  function Be16(n: int): (r: Bytes)
    ensures |r| == 2
  {
    [n / 0x100 % 0x100, n % 0x100]
  }

  function Be32(n: int): (r: Bytes)
    ensures |r| == 4
  {
    Be16(n / 0x1_0000) + Be16(n)
  }

  function Get16(p: Bytes, i: nat): int
    requires i + 2 <= |p|
  {
    p[i] * 0x100 + p[i + 1]
  }

  function Get32(p: Bytes, i: nat): int
    requires i + 4 <= |p|
  {
    Get16(p, i) * 0x1_0000 + Get16(p, i + 2)
  }

  // ---------- the builder ----------

  /** Who a segment is for and what its header says. */
  datatype Header = Header(mac: Bytes, ip: Bytes, port: int, seqNum: int, ackNum: int, flags: int, length: int)

  ghost predicate WellFormed(h: Header) {
    && |h.mac| == 6 && AreBytes(h.mac) && |h.ip| == 4 && AreBytes(h.ip)
    && IsU16(h.port) && IsU32(h.seqNum) && IsU32(h.ackNum) && 0 <= h.flags < 0x100
    && 20 <= h.length <= 60
  }

  function Options(length: int): (r: Bytes)
    requires length >= 20
    ensures |r| == length - 20
  {
    if length == 24 then [0x02, 0x04] + Be16(1460) else seq(length - 20, _ => 0)
  }

  function EthernetPart(h: Header): (r: Bytes)
    requires |h.mac| == 6
    ensures |r| == 14
  {
    h.mac + MY_MAC + [0x08, 0x00]
  }

  function IpPart(h: Header, total: int): (r: Bytes)
    requires |h.ip| == 4
    ensures |r| == 20
  {
    [0x45, 0] + Be16(total) + [0, 0, 0x40, 0x00, 64, 6, 0, 0] + MY_IP + h.ip
  }

  function TcpPart(h: Header): (r: Bytes)
    requires h.length >= 20
    ensures |r| == h.length
  {
    Be16(80) + Be16(h.port) + Be32(h.seqNum) + Be32(h.ackNum)
    + [h.length / 4 * 16 % 0x100, h.flags] + Be16(0xFAF0) + [0, 0, 0, 0] + Options(h.length)
  }

  /** The frame without a body, with the IP total length given apart. */
  function Built(h: Header, total: int): (r: Bytes)
    requires |h.mac| == 6 && |h.ip| == 4 && h.length >= 20
    ensures |r| == 34 + h.length
  {
    EthernetPart(h) + IpPart(h, total) + TcpPart(h)
  }

  // ---------- the parser ----------

  /** Everything the receive path extracts before it decides what to do. */
  datatype Segment = Segment(
    srcIp: Bytes, destIp: Bytes, srcPort: int, destPort: int, seqNum: int, ackNum: int,
    headerLength: int, flags: int, ipHeaderLength: int, totalLength: int)

  function Parse(p: Bytes): Option<Segment> {
    if |p| < 14 || Get16(p, 12) != 0x0800 then None
    else if |p| < 34 || p[23] != 6 then None
    else
      var ihl := p[14] % 16 * 4;
      var t := 14 + ihl;
      if |p| < t + 20 then None
      else
        var dataOffsetFlags := Get16(p, t + 12);
        Some(Segment(
          p[26..30], p[30..34], Get16(p, t), Get16(p, t + 2), Get32(p, t + 4), Get32(p, t + 8),
          dataOffsetFlags / 0x1000 % 16 * 4, dataOffsetFlags % 0x200, ihl, Get16(p, 16)))
  }

  /** The bytes after both headers, up to the end that the IP header states. */
  function Payload(p: Bytes, s: Segment): Option<Bytes>
    requires s.ipHeaderLength >= 0 && s.headerLength >= 0
  {
    var start := 14 + s.ipHeaderLength + s.headerLength;
    var length := s.totalLength - s.ipHeaderLength - s.headerLength;
    if length > 0 && |p| >= start + length then Some(p[start..start + length]) else None
  }

  /** For every byte string whatever, a payload that is passed on lies between the headers and 14 + total length. */
  lemma PayloadInBounds(p: Bytes)
    ensures Parse(p).Some? ==>
      var s := Parse(p).value;
      var start, end := 14 + s.ipHeaderLength + s.headerLength, 14 + s.totalLength;
      && 0 <= s.ipHeaderLength <= 60 && 0 <= s.headerLength <= 60
      && (Payload(p, s).Some? <==> start < end <= |p|)
      && (Payload(p, s).Some? ==> Payload(p, s).value == p[start..end])
  {}

  /** Which byte strings parse, and where each field is read from, for every IP header length. */
  lemma ParsedFields(p: Bytes)
    requires AreBytes(p)
    ensures Parse(p).Some? <==> |p| >= 34 && p[12] == 0x08 && p[13] == 0x00 && p[23] == 6 && |p| >= 14 + p[14] % 16 * 4 + 20
    ensures Parse(p).Some? ==>
      var s, t := Parse(p).value, 14 + p[14] % 16 * 4;
      && s.srcIp == p[26..30] && s.destIp == p[30..34]
      && s.srcPort == p[t] * 256 + p[t + 1] && s.destPort == p[t + 2] * 256 + p[t + 3]
      && s.seqNum == p[t + 4] * 0x100_0000 + p[t + 5] * 0x1_0000 + p[t + 6] * 0x100 + p[t + 7]
      && s.ackNum == p[t + 8] * 0x100_0000 + p[t + 9] * 0x1_0000 + p[t + 10] * 0x100 + p[t + 11]
      && s.headerLength == p[t + 12] / 16 * 4 && s.flags == p[t + 12] % 2 * 256 + p[t + 13]
      && s.ipHeaderLength == t - 14 && s.totalLength == p[16] * 256 + p[17]
  {
    if Parse(p).Some? {
      var t := 14 + p[14] % 16 * 4;
      OffsetAndFlags(p[t + 12], p[t + 13]);
    }
  }

  lemma OffsetAndFlags(b: int, c: int)
    requires 0 <= b < 256 && 0 <= c < 256
    ensures (b * 0x100 + c) / 0x1000 % 16 == b / 16 && (b * 0x100 + c) % 0x200 == b % 2 * 256 + c
  {
    Quotient(b * 0x100 + c, 0x1000, b / 16, b % 16 * 0x100 + c);
    Quotient(b * 0x100 + c, 0x200, b / 2, b % 2 * 0x100 + c);
  }

  // ---------- the parser undoes the builder ----------

  lemma Split16(n: int)
    requires IsU16(n)
    ensures n / 0x100 % 0x100 * 0x100 + n % 0x100 == n
  {}

  lemma RoundTrip32(n: int)
    requires IsU32(n)
    ensures Get32(Be32(n), 0) == n
  {
    ModSplit(n, 0x100, 0x100);
    DivDiv(n, 0x100, 0x100);
    ModSplit(n / 0x1_0000, 0x100, 0x100);
  }

  lemma FieldAt16(p: Bytes, i: nat, n: int)
    requires i + 2 <= |p| && p[i..i + 2] == Be16(n) && IsU16(n)
    ensures Get16(p, i) == n
  {
    Split16(n);
    assert p[i] == p[i..i + 2][0] && p[i + 1] == p[i..i + 2][1];
  }

  lemma FieldAt32(p: Bytes, i: nat, n: int)
    requires i + 4 <= |p| && p[i..i + 4] == Be32(n) && IsU32(n)
    ensures Get32(p, i) == n
  {
    RoundTrip32(n);
    var q := p[i..i + 4];
    assert p[i] == q[0] && p[i + 1] == q[1] && p[i + 2] == q[2] && p[i + 3] == q[3];
  }

  /** Where each field of a built frame sits. */
  ghost predicate Layout(p: Bytes, h: Header, total: int)
    requires |h.mac| == 6 && |h.ip| == 4 && |p| >= 54
  {
    && p[12..14] == [0x08, 0x00] && p[14] == 0x45 && p[16..18] == Be16(total) && p[23] == 6
    && p[26..30] == MY_IP && p[30..34] == h.ip
    && p[34..36] == Be16(80) && p[36..38] == Be16(h.port)
    && p[38..42] == Be32(h.seqNum) && p[42..46] == Be32(h.ackNum)
    && p[46] == h.length / 4 * 16 % 0x100 && p[47] == h.flags
  }

  lemma IpLayout(h: Header, total: int)
    requires |h.ip| == 4
    ensures var q := IpPart(h, total);
            q[0] == 0x45 && q[2..4] == Be16(total) && q[9] == 6 && q[12..16] == MY_IP && q[16..20] == h.ip
  {}

  lemma TcpLayout(h: Header)
    requires h.length >= 20
    ensures var q := TcpPart(h);
            && q[0..2] == Be16(80) && q[2..4] == Be16(h.port)
            && q[4..8] == Be32(h.seqNum) && q[8..12] == Be32(h.ackNum)
            && q[12] == h.length / 4 * 16 % 0x100 && q[13] == h.flags
  {
    hide Be16, Be32, Options;
  }

  lemma BuiltLayout(h: Header, total: int)
    requires |h.mac| == 6 && |h.ip| == 4 && h.length >= 20
    ensures Layout(Built(h, total), h, total)
  {
    IpLayout(h, total);
    TcpLayout(h);
    var p, i, t := Built(h, total), IpPart(h, total), TcpPart(h);
    assert p[12..14] == EthernetPart(h)[12..14] == [0x08, 0x00];
    hide IpPart, TcpPart, EthernetPart, Be16, Be32;
    assert p[16..18] == i[2..4] && p[26..30] == i[12..16] && p[30..34] == i[16..20];
    assert p[34..36] == t[0..2] && p[36..38] == t[2..4] && p[38..42] == t[4..8] && p[42..46] == t[8..12];
  }

  lemma LayoutKept(p: Bytes, q: Bytes, h: Header, total: int)
    requires |h.mac| == 6 && |h.ip| == 4 && |p| >= 54 && |q| >= 54 && Layout(p, h, total)
    requires forall i | 12 <= i < 48 && i != 24 && i != 25 :: p[i] == q[i]
    ensures Layout(q, h, total)
  {
    assert q[12..14] == p[12..14] && q[16..18] == p[16..18] && q[26..30] == p[26..30] && q[30..34] == p[30..34];
    assert q[34..36] == p[34..36] && q[36..38] == p[36..38] && q[38..42] == p[38..42] && q[42..46] == p[42..46];
  }

  lemma ParseLayout(p: Bytes, h: Header, total: int)
    requires WellFormed(h) && |p| >= 54 && IsU16(total) && Layout(p, h, total)
    ensures Parse(p) == Some(Segment(MY_IP, h.ip, 80, h.port, h.seqNum, h.ackNum, h.length / 4 * 4, h.flags, 20, total))
  {
    FieldAt16(p, 16, total);
    FieldAt16(p, 34, 80);
    FieldAt16(p, 36, h.port);
    FieldAt32(p, 38, h.seqNum);
    FieldAt32(p, 42, h.ackNum);
    assert p[12] == p[12..14][0] && p[13] == p[12..14][1];
    DataOffset(p[46], h);
  }

  lemma DataOffset(b: int, h: Header)
    requires WellFormed(h) && b == h.length / 4 * 16 % 0x100
    ensures (b * 0x100 + h.flags) / 0x1000 % 16 == h.length / 4 && (b * 0x100 + h.flags) % 0x200 == h.flags
  {
    var n := h.length / 4;
    assert b == n * 16;
    Quotient(b * 0x100 + h.flags, 0x1000, n, h.flags);
    Quotient(b * 0x100 + h.flags, 0x200, n * 8, h.flags);
  }

  /** A frame as it goes out: built, given a body, checksummed. */
  function Finished(h: Header, body: Bytes): (r: Bytes)
    requires WellFormed(h) && AreBytes(body)
  {
    var total := (20 + h.length + |body|) % 0x1_0000;
    BuiltBytes(h, total);
    BytesConcat(Built(h, total), body);
    Checksummed(Built(h, total) + body)
  }

  lemma BytesConcat(a: Bytes, b: Bytes)
    requires AreBytes(a) && AreBytes(b)
    ensures AreBytes(a + b)
  {}

  lemma BuiltBytes(h: Header, total: int)
    requires WellFormed(h)
    ensures AreBytes(Built(h, total))
  {
    assert AreBytes(EthernetPart(h));
    assert AreBytes(IpPart(h, total));
    assert AreBytes(TcpPart(h));
  }

  lemma FinishedIs(h: Header, body: Bytes, total: int)
    requires WellFormed(h) && AreBytes(body) && total == 20 + h.length + |body| < 0x1_0000
    ensures |Built(h, total) + body| == 14 + total >= 54 && AreBytes(Built(h, total) + body)
    ensures Finished(h, body) == Checksummed(Built(h, total) + body)
  {
    hide Built, Checksummed, AreBytes;
    BuiltBytes(h, total);
    BytesConcat(Built(h, total), body);
  }

  /** A finished frame whose length fits: both checksums verify and nothing else differs from what was built. */
  lemma FinishedSums(h: Header, body: Bytes, total: int)
    requires WellFormed(h) && AreBytes(body) && total == 20 + h.length + |body| < 0x1_0000
    ensures var p, f := Finished(h, body), Built(h, total) + body;
            && |p| == 14 + total && AreBytes(p)
            && (forall i | 0 <= i < |f| && i !in {24, 25, 50, 51} :: p[i] == f[i])
            && Verifies(p)
  {
    hide Built, Finished, Checksummed, Verifies, AreBytes;
    FinishedIs(h, body, total);
    ChecksumsVerify(Built(h, total) + body);
  }

  lemma FinishedLayout(h: Header, body: Bytes, total: int)
    requires WellFormed(h) && AreBytes(body) && total == 20 + h.length + |body| < 0x1_0000
    ensures var p := Finished(h, body);
            |p| == 14 + total && Layout(p, h, total) && p[34 + h.length..] == body
  {
    hide Built, Finished, Layout, Verifies, AreBytes;
    FinishedSums(h, body, total);
    BuiltLayout(h, total);
    LayoutKept(Built(h, total), Finished(h, body), h, total);
  }

  lemma ParsePadded(h: Header, p: Bytes, padding: Bytes, total: int)
    requires WellFormed(h) && IsU16(total) && |p| >= 54 && Layout(p, h, total)
    ensures Parse(p + padding) == Some(Segment(MY_IP, h.ip, 80, h.port, h.seqNum, h.ackNum, h.length / 4 * 4, h.flags, 20, total))
  {
    hide Layout, Parse;
    LayoutKept(p, p + padding, h, total);
    ParseLayout(p + padding, h, total);
  }

  /** With any Ethernet padding after it, a finished frame parses back to its header and exactly its body. */
  lemma FinishedRoundTrip(h: Header, body: Bytes, padding: Bytes)
    requires WellFormed(h) && h.length % 4 == 0 && AreBytes(body) && 20 + h.length + |body| < 0x1_0000
    ensures var p, total := Finished(h, body) + padding, 20 + h.length + |body|;
            var s := Segment(MY_IP, h.ip, 80, h.port, h.seqNum, h.ackNum, h.length, h.flags, 20, total);
            Parse(p) == Some(s) && Payload(p, s) == if body == [] then None else Some(body)
  {
    hide Finished, Layout, Parse;
    var total := 20 + h.length + |body|;
    FinishedLayout(h, body, total);
    ParsePadded(h, Finished(h, body), padding, total);
    var p := Finished(h, body) + padding;
    assert p[34 + h.length..34 + h.length + |body|] == Finished(h, body)[34 + h.length..];
  }

  /** The header length survives the trip exactly when it is a whole number of 32-bit words. */
  lemma HeaderLengthExact(h: Header, body: Bytes)
    requires WellFormed(h) && AreBytes(body) && 20 + h.length + |body| < 0x1_0000
    ensures Parse(Finished(h, body)).Some?
    ensures Parse(Finished(h, body)).value.headerLength == h.length <==> h.length % 4 == 0
  {
    hide Finished, Layout, Parse;
    FinishedLayout(h, body, 20 + h.length + |body|);
    ParsePadded(h, Finished(h, body), [], 20 + h.length + |body|);
    assert Finished(h, body) + [] == Finished(h, body);
  }

  // ---------- every byte of a frame ----------

  /** Four bytes, the most significant first. */
  function Big4(p: Bytes, i: nat): int
    requires i + 4 <= |p|
  {
    p[i] * 0x100_0000 + p[i + 1] * 0x1_0000 + p[i + 2] * 0x100 + p[i + 3]
  }

  /** The header bytes of a frame, apart from the two checksums: destination before source, then IPv4, then TCP. */
  ghost predicate Spelled(p: Bytes, h: Header, total: int)
    requires |p| >= 34 + h.length && h.length >= 20
  {
    && p[0..6] == h.mac && p[6..12] == [0x52, 0x54, 0x00, 0x12, 0x34, 0x56] && p[12..14] == [0x08, 0x00]
    && p[14..16] == [0x45, 0x00] && p[16] * 256 + p[17] == total && p[18..24] == [0, 0, 0x40, 0x00, 64, 6]
    && p[26..30] == [10, 0, 2, 15] && p[30..34] == h.ip
    && p[34..36] == [0, 80] && p[36] * 256 + p[37] == h.port && Big4(p, 38) == h.seqNum && Big4(p, 42) == h.ackNum
    && p[46] == h.length / 4 * 16 && p[47] == h.flags && p[48..50] == [0xFA, 0xF0] && p[52..54] == [0, 0]
    && (h.length == 24 ==> p[54..58] == [0x02, 0x04, 0x05, 0xB4])
  }

  lemma EthernetSpelled(h: Header)
    requires |h.mac| == 6
    ensures var e := EthernetPart(h);
            e[0..6] == h.mac && e[6..12] == [0x52, 0x54, 0x00, 0x12, 0x34, 0x56] && e[12..14] == [0x08, 0x00]
  {}

  lemma IpSpelled(h: Header, total: int)
    requires |h.ip| == 4 && IsU16(total)
    ensures var q := IpPart(h, total);
            && q[0..2] == [0x45, 0x00] && q[2] * 256 + q[3] == total && q[4..10] == [0, 0, 0x40, 0x00, 64, 6]
            && q[12..16] == [10, 0, 2, 15] && q[16..20] == h.ip
  {
    Split16(total);
  }

  lemma Spelled32(q: Bytes, i: nat, n: int)
    requires i + 4 <= |q| && q[i..i + 4] == Be32(n) && IsU32(n)
    ensures Big4(q, i) == n
  {
    FieldAt32(q, i, n);
  }

  lemma TcpSpelled(h: Header)
    requires WellFormed(h)
    ensures var q := TcpPart(h);
            && q[0..2] == [0, 80] && q[2] * 256 + q[3] == h.port && Big4(q, 4) == h.seqNum && Big4(q, 8) == h.ackNum
            && q[12] == h.length / 4 * 16 && q[13] == h.flags && q[14..16] == [0xFA, 0xF0] && q[18..20] == [0, 0]
            && (h.length == 24 ==> q[20..24] == [0x02, 0x04, 0x05, 0xB4])
  {
    var q := TcpPart(h);
    TcpLayout(h);
    FieldAt16(q, 2, h.port);
    Spelled32(q, 4, h.seqNum);
    Spelled32(q, 8, h.ackNum);
    TcpConstants(h);
    hide TcpPart, Be16, Be32, Big4, Get16;
    assert Get16(q, 2) == h.port;
    PortBytes(q);
  }

  lemma PortBytes(q: Bytes)
    requires |q| >= 4
    ensures Get16(q, 2) == q[2] * 256 + q[3]
  {}

  lemma OffsetByte(length: int)
    requires 20 <= length <= 60
    ensures length / 4 * 16 % 0x100 == length / 4 * 16
  {}

  lemma Constants()
    ensures Be16(80) == [0, 80] && Be16(0xFAF0) == [0xFA, 0xF0] && Be16(1460) == [0x05, 0xB4]
  {}

  lemma TcpConstants(h: Header)
    requires WellFormed(h)
    ensures var q := TcpPart(h);
            && q[0..2] == [0, 80] && q[12] == h.length / 4 * 16 && q[14..16] == [0xFA, 0xF0] && q[18..20] == [0, 0]
            && (h.length == 24 ==> q[20..24] == [0x02, 0x04, 0x05, 0xB4])
  {
    hide Be16, Be32, Options;
    Constants();
    OffsetByte(h.length);
    assert h.length == 24 ==> Options(24) == [0x02, 0x04, 0x05, 0xB4] by { SegmentSizeOption(); }
    var q := TcpPart(h);
    assert q[20..] == Options(h.length);
    assert h.length == 24 ==> q[20..24] == q[20..];
  }

  lemma SegmentSizeOption()
    ensures Options(24) == [0x02, 0x04, 0x05, 0xB4]
  {
    Constants();
  }

  lemma BuiltSpelled(h: Header, total: int)
    requires WellFormed(h) && IsU16(total)
    ensures Spelled(Built(h, total), h, total)
  {
    EthernetSpelled(h);
    IpSpelled(h, total);
    TcpSpelled(h);
    var p, e, i, t := Built(h, total), EthernetPart(h), IpPart(h, total), TcpPart(h);
    hide IpPart, TcpPart, EthernetPart;
    assert p[0..6] == e[0..6] && p[6..12] == e[6..12] && p[12..14] == e[12..14];
    assert p[14..16] == i[0..2] && p[18..24] == i[4..10] && p[26..30] == i[12..16] && p[30..34] == i[16..20];
    assert p[34..36] == t[0..2] && p[48..50] == t[14..16] && p[52..54] == t[18..20];
    assert h.length == 24 ==> p[54..58] == t[20..24];
  }

  lemma SpelledKept(p: Bytes, q: Bytes, h: Header, total: int)
    requires 34 + h.length <= |p| && 34 + h.length <= |q| && h.length >= 20 && Spelled(p, h, total)
    requires forall i | 0 <= i < 34 + h.length && i !in {24, 25, 50, 51} :: q[i] == p[i]
    ensures Spelled(q, h, total)
  {
    assert q[0..6] == p[0..6] && q[6..12] == p[6..12] && q[12..14] == p[12..14] && q[14..16] == p[14..16];
    assert q[18..24] == p[18..24] && q[26..30] == p[26..30] && q[30..34] == p[30..34] && q[34..36] == p[34..36];
    assert q[48..50] == p[48..50] && q[52..54] == p[52..54];
    assert h.length == 24 ==> q[54..58] == p[54..58];
  }

  /** A finished frame, padded or not, spells out its header and then its body. */
  lemma FinishedSpelled(h: Header, body: Bytes, padding: Bytes)
    requires WellFormed(h) && AreBytes(body) && 20 + h.length + |body| < 0x1_0000
    ensures var p, total := Finished(h, body) + padding, 20 + h.length + |body|;
            |p| >= 14 + total && Spelled(p, h, total) && p[34 + h.length..14 + total] == body
  {
    hide Built, Finished, Verifies, AreBytes, Spelled;
    var total := 20 + h.length + |body|;
    FinishedSums(h, body, total);
    BuiltSpelled(h, total);
    SpelledKept(Built(h, total), Finished(h, body) + padding, h, total);
  }

  // ---------- the kernel's code ----------

  function Zeros(n: nat): (r: Bytes)
    ensures |r| == n
  {
    seq(n, _ => 0)
  }

  /** The frame starts with `done`, then `part`, and is still zero after that. */
  ghost predicate Laid(f: Bytes, done: Bytes, part: Bytes) {
    |done| + |part| <= |f| && f == done + part + Zeros(|f| - |done| - |part|)
  }

  method PutNext(frame: array<int>, at: nat, src: Bytes, ghost done: Bytes, ghost part: Bytes)
    requires Laid(frame[..], done, part) && at == |done| + |part| && at + |src| <= frame.Length
    modifies frame
    ensures Laid(frame[..], done, part + src)
  {
    for k := 0 to |src|
      invariant frame[..] == done + part + src[..k] + Zeros(frame.Length - at - k)
    {
      frame[at + k] := src[k];
    }
    assert src[..|src|] == src;
  }

  lemma Skip(f: Bytes, done: Bytes, part: Bytes, n: nat)
    requires Laid(f, done, part) && |done| + |part| + n <= |f|
    ensures Laid(f, done, part + Zeros(n))
  {}

  lemma NextPart(f: Bytes, done: Bytes, part: Bytes)
    requires Laid(f, done, part)
    ensures Laid(f, done + part, [])
  {}

  method FillEthernet(frame: array<int>, h: Header)
    requires |h.mac| == 6 && frame.Length >= 34 && frame[..] == Zeros(frame.Length)
    modifies frame
    ensures Laid(frame[..], [], EthernetPart(h))
  {
    hide Laid;
    assert Laid(frame[..], [], []) by { Start(frame[..]); }
    PutNext(frame, 0, h.mac, [], []);
    assert [] + h.mac == h.mac;
    PutNext(frame, 6, MY_MAC, [], h.mac);
    PutNext(frame, 12, [0x08, 0x00], [], h.mac + MY_MAC);
  }

  lemma Start(f: Bytes)
    requires f == Zeros(|f|)
    ensures Laid(f, [], [])
  {}

  method FillIp(frame: array<int>, h: Header)
    requires |h.mac| == 6 && |h.ip| == 4 && frame.Length >= 34 && Laid(frame[..], EthernetPart(h), [])
    modifies frame
    ensures Laid(frame[..], EthernetPart(h), IpPart(h, 20 + h.length))
  {
    hide Laid, Be16;
    ghost var e, total := EthernetPart(h), Be16(20 + h.length);
    PutNext(frame, 14, [0x45], e, []);
    Skip(frame[..], e, [] + [0x45], 1);
    assert [] + [0x45] + Zeros(1) == [0x45, 0];
    PutNext(frame, 16, Be16(20 + h.length), e, [0x45, 0]);
    ghost var q := [0x45, 0] + total;
    Skip(frame[..], e, q, 2);
    PutNext(frame, 20, [0x40, 0x00], e, q + Zeros(2));
    PutNext(frame, 22, [64, 6], e, q + Zeros(2) + [0x40, 0x00]);
    Skip(frame[..], e, q + Zeros(2) + [0x40, 0x00] + [64, 6], 2);
    assert q + Zeros(2) + [0x40, 0x00] + [64, 6] + Zeros(2) == q + [0, 0, 0x40, 0x00, 64, 6, 0, 0];
    q := q + [0, 0, 0x40, 0x00, 64, 6, 0, 0];
    PutNext(frame, 26, MY_IP, e, q);
    PutNext(frame, 30, h.ip, e, q + MY_IP);
  }

  method FillTcp(frame: array<int>, h: Header, ghost done: Bytes)
    requires h.length >= 20 && |done| == 34 && frame.Length == 34 + h.length && Laid(frame[..], done, [])
    modifies frame
    ensures Laid(frame[..], done, TcpPart(h))
  {
    hide Laid, Be16, Be32;
    PutNext(frame, 34, Be16(80), done, []);
    assert [] + Be16(80) == Be16(80);
    PutNext(frame, 36, Be16(h.port), done, Be16(80));
    ghost var q := Be16(80) + Be16(h.port);
    PutNext(frame, 38, Be32(h.seqNum), done, q);
    PutNext(frame, 42, Be32(h.ackNum), done, q + Be32(h.seqNum));
    q := q + Be32(h.seqNum) + Be32(h.ackNum);
    PutNext(frame, 46, [h.length / 4 * 16 % 0x100, h.flags], done, q);
    q := q + [h.length / 4 * 16 % 0x100, h.flags];
    PutNext(frame, 48, Be16(0xFAF0), done, q);
    Skip(frame[..], done, q + Be16(0xFAF0), 4);
    assert Zeros(4) == [0, 0, 0, 0];
    q := q + Be16(0xFAF0) + [0, 0, 0, 0];
    if h.length == 24 {
      PutNext(frame, 54, [0x02, 0x04], done, q);
      PutNext(frame, 56, Be16(1460), done, q + [0x02, 0x04]);
      assert q + [0x02, 0x04] + Be16(1460) == q + Options(h.length);
    } else {
      Skip(frame[..], done, q, h.length - 20);
    }
  }

  method CraftBaseTcpFrame(h: Header) returns (frame: array<int>)
    requires WellFormed(h)
    ensures fresh(frame) && frame[..] == Built(h, 20 + h.length)
  {
    frame := new int[34 + h.length](_ => 0);
    assert frame[..] == Zeros(frame.Length);
    FillEthernet(frame, h);
    NextPart(frame[..], [], EthernetPart(h));
    assert [] + EthernetPart(h) == EthernetPart(h);
    FillIp(frame, h);
    NextPart(frame[..], EthernetPart(h), IpPart(h, 20 + h.length));
    FillTcp(frame, h, EthernetPart(h) + IpPart(h, 20 + h.length));
  }

  // Vec::extend_from_slice
  method Extend(base: array<int>, body: Bytes) returns (frame: array<int>)
    ensures fresh(frame) && frame[..] == base[..] + body
  {
    frame := new int[base.Length + |body|](_ => 0);
    for k := 0 to base.Length
      invariant frame[..k] == base[..k]
    {
      frame[k] := base[k];
    }
    for k := 0 to |body|
      invariant frame[..base.Length + k] == base[..] + body[..k]
    {
      frame[base.Length + k] := body[k];
    }
  }

  /** The tail of a send: append a body, restate the total length, checksum. */
  method FinishFrame(h: Header, body: Bytes) returns (frame: array<int>)
    requires WellFormed(h) && AreBytes(body) && 20 + h.length + |body| < 0x1_0000
    ensures fresh(frame) && frame[..] == Finished(h, body)
  {
    hide Built, Checksummed, Finished, AreBytes;
    ghost var t := 20 + h.length + |body|;
    FinishedIs(h, body, t);
    var base := CraftBaseTcpFrame(h);
    frame := Extend(base, body);
    Restate(frame, h, body);
    RecalculateChecksums(frame);
  }

  method Restate(frame: array<int>, h: Header, body: Bytes)
    requires WellFormed(h) && 20 + h.length + |body| < 0x1_0000
    requires frame[..] == Built(h, 20 + h.length) + body
    modifies frame
    ensures frame[..] == Built(h, 20 + h.length + |body|) + body
  {
    hide Built;
    var total := (20 + h.length + |body|) % 0x1_0000;
    Retotalled(h, total);
    frame[16], frame[17] := total / 0x100 % 0x100, total % 0x100;
    assert frame[..] == WithWord(Built(h, 20 + h.length), 16, total) + body;
  }

  lemma Retotalled(h: Header, total: int)
    requires WellFormed(h)
    ensures WithWord(Built(h, 20 + h.length), 16, total) == Built(h, total)
  {
    var i, j := IpPart(h, 20 + h.length), IpPart(h, total);
    assert WithWord(i, 2, total) == j;
    hide TcpPart, EthernetPart, IpPart;
    var p := EthernetPart(h) + i;
    assert WithWord(Built(h, 20 + h.length), 16, total) == EthernetPart(h) + WithWord(i, 2, total) + TcpPart(h);
  }
}
