/** The HTTP response: what the server writes, and what a client reads back from it. */
module Http {
  import opened Checksum

  function Ascii(s: string): (r: Bytes)
    ensures |r| == |s|
  {
    seq(|s|, i requires 0 <= i < |s| => s[i] as int)
  }

  const CRLF: Bytes := [13, 10]

  // format!("{}", n)
  function Decimal(n: nat): (r: Bytes)
    ensures |r| > 0 && forall i | 0 <= i < |r| :: 48 <= r[i] < 58
  {
    if n < 10 then [48 + n] else Decimal(n / 10) + [48 + n % 10]
  }

  const STATUS: Bytes := Ascii("HTTP/1.1 200 OK")
  const TYPE: Bytes := Ascii("Content-Type: text/plain")
  const LENGTH: Bytes := Ascii("Content-Length: ")
  const CLOSE: Bytes := Ascii("Connection: close")

  /** Each line ended by CR LF. */
  function Lines(ls: seq<Bytes>): Bytes {
    if ls == [] then [] else ls[0] + CRLF + Lines(ls[1..])
  }

  function HeaderLines(n: nat): seq<Bytes> { [STATUS, TYPE, LENGTH + Decimal(n), CLOSE] }

  function Response(content: Bytes): Bytes { Lines(HeaderLines(|content|)) + CRLF + content }

  // ---------- reading a response ----------

  predicate StartsWith(b: Bytes, prefix: Bytes) {
    |prefix| <= |b| && forall i | 0 <= i < |prefix| :: b[i] == prefix[i]
  }

  /** Where the first blank line starts, or the length of `b`. */
  function BlankLine(b: Bytes): (i: nat)
    ensures i <= |b|
  {
    if b == [] then 0 else if StartsWith(b, CRLF + CRLF) then 0 else 1 + BlankLine(b[1..])
  }

  /** The header section, with the line break of its last line. */
  function Head(b: Bytes): Bytes {
    if BlankLine(b) + 2 <= |b| then b[..BlankLine(b) + 2] else b
  }

  /** Everything after the first blank line. */
  function Rest(b: Bytes): Bytes {
    if BlankLine(b) + 4 <= |b| then b[BlankLine(b) + 4..] else []
  }

  /** The lines of the header section: cut at each CR LF. */
  function SplitLines(b: Bytes, line: Bytes): seq<Bytes>
    decreases |b|
  {
    if b == [] then [line]
    else if StartsWith(b, CRLF) then [line] + SplitLines(b[2..], [])
    else SplitLines(b[1..], line + [b[0]])
  }

  function Digits(b: Bytes, acc: nat): nat
    decreases |b|
  {
    if b == [] || !(48 <= b[0] < 58) then acc else Digits(b[1..], 10 * acc + (b[0] - 48))
  }

  /** The number in the first line that starts with the field name. */
  function StatedLength(ls: seq<Bytes>): nat {
    if ls == [] then 0
    else if StartsWith(ls[0], LENGTH) then Digits(ls[0][|LENGTH|..], 0)
    else StatedLength(ls[1..])
  }

  // ---------- the client reads back what the server wrote ----------

  ghost predicate PlainLine(l: Bytes) { l != [] && forall i | 0 <= i < |l| :: l[i] != 13 && l[i] != 10 }

  lemma {:induction false} LineIsNoBreak(l: Bytes, tail: Bytes)
    requires (forall i | 0 <= i < |l| :: l[i] != 13) && StartsWith(tail, CRLF) && !StartsWith(tail, CRLF + CRLF)
    ensures BlankLine(l + tail) == |l| + BlankLine(tail)
  {
    if l == [] {
      assert l + tail == tail;
    } else {
      assert (l + tail)[0] == l[0];
      assert (l + tail)[1..] == l[1..] + tail;
      assert !StartsWith(l + tail, CRLF + CRLF);
      LineIsNoBreak(l[1..], tail);
    }
  }

  lemma BreakThenLine(rest: Bytes)
    requires rest != [] && rest[0] != 13
    ensures !StartsWith(CRLF + rest, CRLF + CRLF) && BlankLine(CRLF + rest) == 2 + BlankLine(rest)
  {
    var b := CRLF + rest;
    assert b[2] == rest[0] && (CRLF + CRLF)[2] == 13;
    assert !StartsWith(b, CRLF + CRLF);
    assert b[1..] == [10] + rest && b[1..][1..] == rest;
    assert !StartsWith(b[1..], CRLF + CRLF);
  }

  /** The first blank line is the one after the last header line, whatever the content holds. */
  lemma {:induction false} FirstBlankLine(ls: seq<Bytes>, content: Bytes)
    requires ls != [] && forall l | l in ls :: PlainLine(l)
    ensures BlankLine(Lines(ls) + CRLF + content) == |Lines(ls)| - 2
  {
    var l, more := ls[0], ls[1..];
    assert PlainLine(l);
    var rest := Lines(more) + CRLF + content;
    assert Lines(ls) + CRLF + content == l + (CRLF + rest);
    if more == [] {
      LastLine(l, content);
      assert rest == CRLF + content;
    } else {
      FirstBlankLine(more, content);
      assert PlainLine(more[0]) && rest[0] == more[0][0];
      BreakThenLine(rest);
      assert StartsWith(CRLF + rest, CRLF);
      LineIsNoBreak(l, CRLF + rest);
    }
  }

  lemma {:induction false} LastLine(l: Bytes, content: Bytes)
    requires forall i | 0 <= i < |l| :: l[i] != 13
    ensures BlankLine(l + (CRLF + (CRLF + content))) == |l|
  {
    var b := l + (CRLF + (CRLF + content));
    if l == [] {
      assert b == CRLF + CRLF + content;
      assert b[..4] == CRLF + CRLF;
    } else {
      assert b[0] == l[0] && b[1..] == l[1..] + (CRLF + (CRLF + content));
      assert !StartsWith(b, CRLF + CRLF);
      LastLine(l[1..], content);
    }
  }

  lemma {:induction false} SplitLine(l: Bytes, acc: Bytes, tail: Bytes)
    requires forall i | 0 <= i < |l| :: l[i] != 13
    ensures SplitLines(l + (CRLF + tail), acc) == [acc + l] + SplitLines(tail, [])
  {
    var b := l + (CRLF + tail);
    if l == [] {
      assert b == CRLF + tail && b[..2] == CRLF && b[2..] == tail;
      assert acc + l == acc;
    } else {
      assert b[0] == l[0] && b[1..] == l[1..] + (CRLF + tail);
      assert !StartsWith(b, CRLF);
      SplitLine(l[1..], acc + [l[0]], tail);
      assert acc + [l[0]] + l[1..] == acc + l;
    }
  }

  lemma {:induction false} SplitUndoesLines(ls: seq<Bytes>)
    requires forall l | l in ls :: PlainLine(l)
    ensures SplitLines(Lines(ls), []) == ls + [[]]
  {
    if ls != [] {
      assert PlainLine(ls[0]);
      SplitUndoesLines(ls[1..]);
      assert Lines(ls) == ls[0] + (CRLF + Lines(ls[1..]));
      SplitLine(ls[0], [], Lines(ls[1..]));
      assert [] + ls[0] == ls[0];
      assert ls == [ls[0]] + ls[1..];
    }
  }

  lemma {:induction false} DigitsConcat(a: Bytes, d: int, acc: nat)
    requires (forall i | 0 <= i < |a| :: 48 <= a[i] < 58) && 48 <= d < 58
    ensures Digits(a + [d], acc) == 10 * Digits(a, acc) + (d - 48)
    decreases |a|
  {
    if a == [] {
      assert a + [d] == [d] && [d][1..] == [];
      assert Digits([d], acc) == Digits([], 10 * acc + (d - 48));
    } else {
      assert (a + [d])[0] == a[0] && (a + [d])[1..] == a[1..] + [d];
      DigitsConcat(a[1..], d, 10 * acc + (a[0] - 48));
    }
  }

  lemma {:induction false} DecimalRoundTrip(n: nat)
    ensures Digits(Decimal(n), 0) == n
  {
    if n < 10 {
      assert [48 + n][1..] == [];
      assert Digits([48 + n], 0) == Digits([], n);
    } else {
      DecimalRoundTrip(n / 10);
      DigitsConcat(Decimal(n / 10), 48 + n % 10, 0);
    }
  }

  lemma HeaderLinesArePlain(n: nat)
    ensures forall l | l in HeaderLines(n) :: PlainLine(l)
  {
    assert PlainLine(STATUS);
    assert PlainLine(TYPE);
    assert PlainLine(LENGTH);
    assert PlainLine(CLOSE);
  }

  lemma OtherFields()
    ensures !StartsWith(STATUS, LENGTH) && !StartsWith(TYPE, LENGTH)
  {
    assert STATUS[0] != LENGTH[0] && TYPE[8] != LENGTH[8];
  }

  /** For every content, the header ends at the first blank line, what follows is the content, and the stated length is its length. */
  lemma ResponseReadsBack(content: Bytes)
    ensures var r := Response(content);
            && Rest(r) == content
            && StatedLength(SplitLines(Head(r), [])) == |content|
  {
    var ls := HeaderLines(|content|);
    var r := Response(content);
    HeaderLinesArePlain(|content|);
    FirstBlankLine(ls, content);
    assert r[BlankLine(r) + 2..] == CRLF + content;
    assert Head(r) == Lines(ls);
    SplitUndoesLines(ls);
    var split := ls + [[]];
    OtherFields();
    var line := LENGTH + Decimal(|content|);
    assert split[1..][1..][0] == line && line[..|LENGTH|] == LENGTH && line[|LENGTH|..] == Decimal(|content|);
    DecimalRoundTrip(|content|);
    assert StatedLength(split) == StatedLength(split[1..]) == StatedLength(split[1..][1..]);
  }

  /** The bytes spell the text. */
  ghost predicate Spells(b: Bytes, text: string) {
    |b| == |text| && forall i | 0 <= i < |b| :: b[i] == text[i] as int
  }

  /** The lines a client gets, for every content. */
  lemma ResponseLines(content: Bytes)
    ensures var ls := SplitLines(Head(Response(content)), []);
            && |ls| == 5
            && Spells(ls[0], "HTTP/1.1 200 OK") && Spells(ls[1], "Content-Type: text/plain")
            && |ls[2]| > 16 && Spells(ls[2][..16], "Content-Length: ") && Digits(ls[2][16..], 0) == |content|
            && Spells(ls[3], "Connection: close") && ls[4] == []
  {
    var ls := HeaderLines(|content|);
    HeadIsLines(content);
    HeaderLinesArePlain(|content|);
    SplitUndoesLines(ls);
    DecimalRoundTrip(|content|);
    var line := LENGTH + Decimal(|content|);
    assert line[..16] == LENGTH && line[16..] == Decimal(|content|);
    hide Decimal, Digits, SplitLines, Head, Response, Lines;
  }

  lemma HeadIsLines(content: Bytes)
    ensures Head(Response(content)) == Lines(HeaderLines(|content|))
  {
    var ls, r := HeaderLines(|content|), Response(content);
    HeaderLinesArePlain(|content|);
    FirstBlankLine(ls, content);
    hide Lines, HeaderLines, BlankLine;
    LinesNonEmpty(ls);
  }

  lemma LinesNonEmpty(ls: seq<Bytes>)
    requires ls != []
    ensures |Lines(ls)| >= 2
  {}

  // ---------- what boot stores and how long the response gets ----------

  /** Bytes up to the first NUL or line feed, or the whole sector. */
  function TextLength(sector: Bytes): (n: nat)
    ensures n <= |sector|
    ensures forall i | 0 <= i < n :: sector[i] != 0 && sector[i] != 10
    ensures n < |sector| ==> sector[n] == 0 || sector[n] == 10
  {
    if sector == [] || sector[0] == 0 || sector[0] == 10 then 0 else 1 + TextLength(sector[1..])
  }

  method ExtractLength(sector: Bytes) returns (n: nat)
    requires |sector| == 512
    ensures n == TextLength(sector)
  {
    n := 0;
    while n < 512 && sector[n] != 0 && sector[n] != 10
      invariant n <= 512
      invariant forall i | 0 <= i < n :: sector[i] != 0 && sector[i] != 10
    {
      n := n + 1;
    }
  }

  /** What boot found: a drive or none, the root directory, the file's first cluster, its first sector. */
  datatype Boot = Boot(nvme: bool, rootLba: int, cluster: int, sector: Bytes)

  const NO_ROOT: Bytes := Ascii("ERROR: INVALID FAT32 ROOT CLUSTER")
  const NO_FILE: Bytes := Ascii("ERROR: PAYLOAD.TXT NOT FOUND!")
  const FOUND: Bytes := Ascii("FILE CONTENT: ")

  /** The payload that boot leaves for the server; `utf8` says which byte strings are valid text. */
  function Stored(b: Boot, utf8: Bytes -> bool): Bytes {
    if !b.nvme then []
    else if b.rootLba <= 0 then NO_ROOT
    else if b.cluster < 2 then NO_FILE
    else
      var text := b.sector[..TextLength(b.sector)];
      if utf8(text) then FOUND + text else []
  }

  /** Which payload boot leaves: nothing without a drive, an error, or the file's text behind its label if it is valid text. */
  lemma StoredExactly(b: Boot, utf8: Bytes -> bool)
    requires |b.sector| == 512
    ensures var n, r := TextLength(b.sector), Stored(b, utf8);
            && (!b.nvme ==> r == [])
            && (b.nvme && b.rootLba <= 0 ==> Spells(r, "ERROR: INVALID FAT32 ROOT CLUSTER"))
            && (b.nvme && b.rootLba > 0 && b.cluster < 2 ==> Spells(r, "ERROR: PAYLOAD.TXT NOT FOUND!"))
            && (b.nvme && b.rootLba > 0 && b.cluster >= 2 ==>
                if utf8(b.sector[..n]) then |r| == 14 + n && Spells(r[..14], "FILE CONTENT: ") && r[14..] == b.sector[..n]
                else r == [])
  {
    FoundBytes();
    var text := b.sector[..TextLength(b.sector)];
    assert (FOUND + text)[..14] == FOUND && (FOUND + text)[14..] == text;
    hide TextLength;
  }

  lemma {:induction false} LinesLength(a: Bytes, b: Bytes, c: Bytes, d: Bytes)
    ensures |Lines([a, b, c, d])| == |a| + |b| + |c| + |d| + 8
  {
    assert [a, b, c, d][1..] == [b, c, d] && [b, c, d][1..] == [c, d] && [c, d][1..] == [d] && [d][1..] == [];
    assert |Lines([d])| == |d| + 2;
    assert |Lines([c, d])| == |c| + 2 + |Lines([d])|;
    assert |Lines([b, c, d])| == |b| + 2 + |Lines([c, d])|;
  }

  lemma DecimalLength(n: nat)
    requires n < 1000
    ensures |Decimal(n)| <= 3
  {
    if n >= 10 {
      assert |Decimal(n / 10)| <= 2 by {
        if n / 10 >= 10 { assert |Decimal(n / 10 / 10)| == 1; }
      }
    }
  }

  /** Every payload that boot can store gives a response whose IP packet stays below 1500 bytes. */
  lemma StoredResponseFits(b: Boot, utf8: Bytes -> bool)
    requires |b.sector| == 512 && AreBytes(b.sector)
    ensures var content := Stored(b, utf8);
            |content| <= 526 && AreBytes(content) && AreBytes(Response(content)) && 40 + |Response(content)| < 1500
  {
    var content := Stored(b, utf8);
    StoredBytes(b, utf8);
    ResponseBytes(content);
    DecimalLength(|content|);
    LinesLength(STATUS, TYPE, LENGTH + Decimal(|content|), CLOSE);
  }

  lemma StoredBytes(b: Boot, utf8: Bytes -> bool)
    requires |b.sector| == 512 && AreBytes(b.sector)
    ensures |Stored(b, utf8)| <= 526 && AreBytes(Stored(b, utf8))
  {
    NoRootBytes();
    NoFileBytes();
    FoundBytes();
  }

  lemma NoRootBytes()
    ensures AreBytes(NO_ROOT)
  {}

  lemma NoFileBytes()
    ensures AreBytes(NO_FILE)
  {}

  lemma FoundBytes()
    ensures AreBytes(FOUND) && |FOUND| == 14
  {}

  lemma {:induction false} LinesBytes(ls: seq<Bytes>)
    requires forall l | l in ls :: AreBytes(l)
    ensures AreBytes(Lines(ls))
  {
    if ls != [] {
      assert AreBytes(ls[0]);
      LinesBytes(ls[1..]);
    }
  }

  lemma StatusBytes()
    ensures AreBytes(STATUS) && AreBytes(CLOSE)
  {}

  lemma FieldBytes()
    ensures AreBytes(TYPE) && AreBytes(LENGTH)
  {}

  lemma ResponseBytes(content: Bytes)
    requires AreBytes(content)
    ensures AreBytes(Response(content))
  {
    StatusBytes();
    FieldBytes();
    LinesBytes(HeaderLines(|content|));
  }
}
