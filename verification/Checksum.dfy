/** The Internet checksum of RFC 1071, as the frame builder computes it in place. */
module Checksum {
  import opened Arithmetic

  type Bytes = seq<int>

  predicate AreBytes(f: Bytes) { forall i | 0 <= i < |f| :: 0 <= f[i] < 256 }

  /** The big-endian 16-bit word at `i`; a byte left over before `hi` is padded with zero. */
  function Word(f: Bytes, i: nat, hi: nat): int
    requires i < hi <= |f|
  {
    256 * f[i] + if i + 1 < hi then f[i + 1] else 0
  }

  /** The plain sum of the words of f[lo..hi]. */
  function Sum(f: Bytes, lo: nat, hi: nat): int
    requires hi <= |f|
    decreases hi - lo
  {
    if lo >= hi then 0 else Word(f, lo, hi) + Sum(f, lo + 2, hi)
  }

  /** Carries folded back in until 16 bits are left. */
  function Fold(n: nat): (r: nat)
    ensures r < 0x1_0000 && (n > 0 ==> r > 0)
    decreases n
  {
    if n < 0x1_0000 then n else Fold(n % 0x1_0000 + n / 0x1_0000)
  }

  // ---------- ones' complement arithmetic ----------

  /** Section 1 of RFC 1071: addition with end-around carry. */
  function OnesAdd(a: nat, b: nat): nat { if a + b < 0x1_0000 then a + b else a + b - 0xFFFF }

  function OnesSum(f: Bytes, lo: nat, hi: nat): (r: nat)
    requires hi <= |f| && AreBytes(f)
    ensures r < 0x1_0000
    decreases hi - lo
  {
    if lo >= hi then 0 else OnesAdd(Word(f, lo, hi), OnesSum(f, lo + 2, hi))
  }

  /** Section 4.1 of RFC 1071: an odd number of bytes is summed as if one zero byte followed. */
  lemma {:induction false} OddBytePadded(f: Bytes, lo: nat, hi: nat)
    requires lo < hi <= |f| && (hi - lo) % 2 == 1 && AreBytes(f)
    ensures AreBytes(f[..hi] + [0]) && OnesSum(f, lo, hi) == OnesSum(f[..hi] + [0], lo, hi + 1)
    decreases hi - lo
  {
    if lo + 1 < hi { OddBytePadded(f, lo + 2, hi); }
  }

  /** And two bytes count as 256 times the first plus the second. */
  lemma TwoBytesSum(a: int, b: int)
    requires 0 <= a < 256 && 0 <= b < 256
    ensures OnesSum([a, b], 0, 2) == 256 * a + b
  {
    assert OnesSum([a, b], 2, 2) == 0;
  }

  /** Two numbers of 16 bits that agree modulo 0xFFFF are equal unless one of them is zero. */
  lemma Residue(a: nat, b: nat)
    requires a < 0x1_0000 && b < 0x1_0000 && a % 0xFFFF == b % 0xFFFF && (a == 0 <==> b == 0)
    ensures a == b
  {}

  lemma SameResidue(a: int, b: int, k: int)
    requires a == b + 0xFFFF * k
    ensures a % 0xFFFF == b % 0xFFFF
  {
    Quotient(a, 0xFFFF, b / 0xFFFF + k, b % 0xFFFF);
  }

  lemma {:induction false} FoldResidue(n: nat)
    ensures Fold(n) % 0xFFFF == n % 0xFFFF
    decreases n
  {
    if n >= 0x1_0000 {
      var m := n % 0x1_0000 + n / 0x1_0000;
      FoldResidue(m);
      SameResidue(n, m, n / 0x1_0000);
    }
  }

  lemma FoldUnique(n: nat, r: nat)
    requires r < 0x1_0000 && r % 0xFFFF == n % 0xFFFF && (r == 0 <==> n == 0)
    ensures Fold(n) == r
  {
    FoldResidue(n);
    Residue(Fold(n), r);
  }

  lemma {:induction false} SumNonNegative(f: Bytes, lo: nat, hi: nat)
    requires hi <= |f| && AreBytes(f)
    ensures 0 <= Sum(f, lo, hi) <= 0xFFFF * (if lo >= hi then 0 else (hi - lo + 1) / 2)
    decreases hi - lo
  {
    if lo < hi { SumNonNegative(f, lo + 2, hi); }
  }

  /** Adding everything up first and folding once gives the ones' complement sum. */
  lemma {:induction false} FoldOfSum(f: Bytes, lo: nat, hi: nat)
    requires hi <= |f| && AreBytes(f)
    ensures Sum(f, lo, hi) >= 0 && Fold(Sum(f, lo, hi)) == OnesSum(f, lo, hi)
    decreases hi - lo
  {
    if lo < hi {
      var w, rest := Word(f, lo, hi), Sum(f, lo + 2, hi);
      FoldOfSum(f, lo + 2, hi);
      FoldResidue(rest);
      var r := OnesAdd(w, Fold(rest));
      var k := (rest - Fold(rest)) / 0xFFFF;
      Quotient(rest - Fold(rest), 0xFFFF, rest / 0xFFFF - Fold(rest) / 0xFFFF, 0);
      SameResidue(w + rest, r, if w + Fold(rest) < 0x1_0000 then k else k + 1);
      FoldUnique(w + rest, r);
    }
  }

  /** Complementing the folded sum and adding it back leaves all ones. */
  lemma ComplementCompletes(n: nat)
    ensures Fold(n + (0xFFFF - Fold(n))) == 0xFFFF
  {
    FoldResidue(n);
    var k := n / 0xFFFF - Fold(n) / 0xFFFF;
    SameResidue(n + (0xFFFF - Fold(n)), 0xFFFF, k);
    FoldUnique(n + (0xFFFF - Fold(n)), 0xFFFF);
  }

  // ---------- writing a word ----------

  function WithWord(f: Bytes, i: nat, w: int): (r: Bytes)
    requires i + 1 < |f|
    ensures |r| == |f|
  {
    f[i := w / 256 % 256][i + 1 := w % 256]
  }

  lemma {:induction false} SumElsewhere(f: Bytes, g: Bytes, lo: nat, hi: nat)
    requires hi <= |f| && hi <= |g| && forall i | lo <= i < hi :: f[i] == g[i]
    ensures Sum(f, lo, hi) == Sum(g, lo, hi)
    decreases hi - lo
  {
    if lo < hi { SumElsewhere(f, g, lo + 2, hi); }
  }

  lemma SumBeforeWord(f: Bytes, lo: nat, hi: nat, i: nat, w: int)
    requires hi <= i && i + 1 < |f|
    ensures Sum(WithWord(f, i, w), lo, hi) == Sum(f, lo, hi)
  {
    SumElsewhere(WithWord(f, i, w), f, lo, hi);
  }

  lemma ZeroWord(f: Bytes, i: nat)
    requires i + 1 < |f| && AreBytes(f)
    ensures var g := WithWord(f, i, 0); AreBytes(g) && WithWord(g, i, 0) == g
  {}

  lemma {:induction false} SumWithWord(f: Bytes, lo: nat, hi: nat, i: nat, w: int)
    requires lo <= i && i + 1 < hi <= |f| && (i - lo) % 2 == 0 && 0 <= w < 0x1_0000
    ensures Sum(WithWord(f, i, w), lo, hi) == Sum(WithWord(f, i, 0), lo, hi) + w
    decreases hi - lo
  {
    if lo == i {
      SumElsewhere(WithWord(f, i, w), WithWord(f, i, 0), lo + 2, hi);
    } else {
      SumWithWord(f, lo + 2, hi, i, w);
    }
  }

  // ---------- recalculate_checksums ----------

  function IpSum(f: Bytes): int
    requires |f| >= 52
  {
    Sum(f, 14, 34)
  }

  /** Addresses, protocol and length of the pseudo-header, then the segment. */
  function TcpSum(f: Bytes): int
    requires |f| >= 52
  {
    Sum(f, 26, 34) + 6 + (|f| - 34) + Sum(f, 34, |f|)
  }

  function WithIpChecksum(f: Bytes): (r: Bytes)
    requires |f| >= 52 && AreBytes(f)
    ensures |r| == |f|
  {
    var g := WithWord(f, 24, 0);
    SumNonNegative(g, 14, 34);
    WithWord(g, 24, 0xFFFF - Fold(IpSum(g)))
  }

  function WithTcpChecksum(f: Bytes): (r: Bytes)
    requires |f| >= 52 && AreBytes(f)
    ensures |r| == |f|
  {
    var g := WithWord(f, 50, 0);
    SumNonNegative(g, 26, 34);
    SumNonNegative(g, 34, |g|);
    WithWord(g, 50, 0xFFFF - Fold(TcpSum(g)))
  }

  lemma IpChecksumBytes(f: Bytes)
    requires |f| >= 52 && AreBytes(f)
    ensures AreBytes(WithIpChecksum(f))
  {}

  function Checksummed(f: Bytes): (r: Bytes)
    requires |f| >= 52 && AreBytes(f)
    ensures |r| == |f|
  {
    IpChecksumBytes(f);
    WithTcpChecksum(WithIpChecksum(f))
  }

  /** A zeroed word of a range replaced by the complement of the sum of `extra` and the range completes the sum. */
  lemma WordCompletes(g: Bytes, extra: nat, lo: nat, hi: nat, i: nat)
    requires lo <= i && i + 1 < hi <= |g| && (i - lo) % 2 == 0
    requires AreBytes(g) && WithWord(g, i, 0) == g
    ensures Sum(g, lo, hi) >= 0
    ensures var c := 0xFFFF - Fold(extra + Sum(g, lo, hi));
            Sum(WithWord(g, i, c), lo, hi) >= 0 && Fold(extra + Sum(WithWord(g, i, c), lo, hi)) == 0xFFFF
  {
    hide Sum, Fold, WithWord, AreBytes, Word;
    SumNonNegative(g, lo, hi);
    var n := extra + Sum(g, lo, hi);
    SumWithWord(g, lo, hi, i, 0xFFFF - Fold(n));
    ComplementCompletes(n);
  }

  lemma IpChecksumVerifies(f: Bytes)
    requires |f| >= 52 && AreBytes(f)
    ensures IpSum(WithIpChecksum(f)) >= 0 && Fold(IpSum(WithIpChecksum(f))) == 0xFFFF
  {
    hide Sum, Fold, WithWord, AreBytes, Word;
    ZeroWord(f, 24);
    WordCompletes(WithWord(f, 24, 0), 0, 14, 34, 24);
  }

  lemma TcpFieldCompletes(g: Bytes)
    requires |g| >= 52 && AreBytes(g) && WithWord(g, 50, 0) == g
    ensures TcpSum(g) >= 0
    ensures var r := WithWord(g, 50, 0xFFFF - Fold(TcpSum(g))); TcpSum(r) >= 0 && Fold(TcpSum(r)) == 0xFFFF
  {
    hide Sum, Fold, WithWord, AreBytes, Word;
    SumNonNegative(g, 26, 34);
    WordCompletes(g, Sum(g, 26, 34) + 6 + (|g| - 34), 34, |g|, 50);
    SumBeforeWord(g, 26, 34, 50, 0xFFFF - Fold(TcpSum(g)));
  }

  lemma TcpChecksumVerifies(f: Bytes)
    requires |f| >= 52 && AreBytes(f)
    ensures TcpSum(WithTcpChecksum(f)) >= 0 && Fold(TcpSum(WithTcpChecksum(f))) == 0xFFFF
  {
    hide TcpSum, Sum, Fold, WithWord, AreBytes, Word;
    ZeroWord(f, 50);
    TcpFieldCompletes(WithWord(f, 50, 0));
  }

  // ---------- what the two sums mean ----------

  lemma {:induction false} SumOfSlice(f: Bytes, g: Bytes, at: nat, lo: nat, hi: nat)
    requires at + hi <= |g| && hi <= |f| && forall i | lo <= i < hi :: f[i] == g[at + i]
    ensures Sum(f, lo, hi) == Sum(g, at + lo, at + hi)
    decreases hi - lo
  {
    if lo < hi { SumOfSlice(f, g, at, lo + 2, hi); }
  }

  lemma {:induction false} SumSplits(f: Bytes, lo: nat, mid: nat, hi: nat)
    requires lo <= mid <= hi <= |f| && (mid - lo) % 2 == 0
    ensures Sum(f, lo, hi) == Sum(f, lo, mid) + Sum(f, mid, hi)
    decreases mid - lo
  {
    if lo < mid { SumSplits(f, lo + 2, mid, hi); }
  }

  /** The pseudo-header of section 3.1 of RFC 9293: both addresses, zero, the protocol, the segment's length. */
  function PseudoHeader(f: Bytes): (r: Bytes)
    requires |f| >= 52
    ensures |r| == 12
  {
    f[26..34] + [0, 6, (|f| - 34) / 0x100, (|f| - 34) % 0x100]
  }

  /** What the TCP checksum is a checksum of. */
  function Covered(f: Bytes): (r: Bytes)
    requires |f| >= 52
    ensures |r| == |f| - 22
  {
    PseudoHeader(f) + f[34..]
  }

  lemma CoveredBytes(f: Bytes)
    requires 52 <= |f| < 34 + 0x1_0000 && AreBytes(f)
    ensures AreBytes(Covered(f))
  {}

  lemma TwoWords(f: Bytes)
    requires |f| >= 12
    ensures Sum(f, 8, 12) == f[8] * 256 + f[9] + f[10] * 256 + f[11]
  {
    assert Sum(f, 12, 12) == 0;
    assert Sum(f, 10, 12) == f[10] * 256 + f[11];
  }

  lemma CoveredAt(f: Bytes)
    requires |f| >= 52
    ensures forall i | 0 <= i < 8 :: Covered(f)[i] == f[26 + i]
    ensures forall i | 12 <= i < |f| - 22 :: Covered(f)[i] == f[22 + i]
    ensures var c := Covered(f); c[8] * 256 + c[9] + c[10] * 256 + c[11] == 6 + (|f| - 34)
  {}

  /** The kernel's sum over fields and segment is the sum over pseudo-header and segment. */
  lemma TcpSumIsCovered(f: Bytes)
    requires |f| >= 52
    ensures TcpSum(f) == Sum(Covered(f), 0, |f| - 22)
  {
    hide Sum, Word, Covered;
    CoveredAt(f);
    var c := Covered(f);
    SumSplits(c, 0, 8, |f| - 22);
    SumSplits(c, 8, 12, |f| - 22);
    SumOfSlice(c, f, 26, 0, 8);
    SumOfSlice(c, f, 22, 12, |f| - 22);
    TwoWords(c);
  }

  /** In ones' complement, the IP header and the TCP segment behind its pseudo-header both add up to all ones. */
  ghost predicate Verifies(f: Bytes)
    requires 52 <= |f| < 34 + 0x1_0000 && AreBytes(f)
  {
    CoveredBytes(f);
    OnesSum(f, 14, 34) == 0xFFFF && OnesSum(Covered(f), 0, |f| - 22) == 0xFFFF
  }

  lemma FoldsVerify(f: Bytes)
    requires 52 <= |f| < 34 + 0x1_0000 && AreBytes(f)
    requires IpSum(f) >= 0 && Fold(IpSum(f)) == 0xFFFF && TcpSum(f) >= 0 && Fold(TcpSum(f)) == 0xFFFF
    ensures Verifies(f)
  {
    hide Sum, Fold, OnesSum, Word, Covered;
    CoveredBytes(f);
    FoldOfSum(f, 14, 34);
    FoldOfSum(Covered(f), 0, |f| - 22);
    TcpSumIsCovered(f);
  }

  /** For every frame whose segment length fits 16 bits, both sums verify, and only the two checksum fields change. */
  lemma ChecksumsVerify(f: Bytes)
    requires |f| >= 52 && AreBytes(f)
    ensures var r := Checksummed(f);
            && AreBytes(r)
            && (|f| < 34 + 0x1_0000 ==> Verifies(r))
            && forall i | 0 <= i < |f| && i !in {24, 25, 50, 51} :: r[i] == f[i]
  {
    FoldsComplete(f);
    if |f| < 34 + 0x1_0000 {
      hide Fold, IpSum, TcpSum, Verifies, AreBytes, Checksummed;
      FoldsVerify(Checksummed(f));
    }
  }

  lemma FoldsComplete(f: Bytes)
    requires |f| >= 52 && AreBytes(f)
    ensures var r := Checksummed(f);
            && AreBytes(r)
            && IpSum(r) >= 0 && Fold(IpSum(r)) == 0xFFFF
            && TcpSum(r) >= 0 && Fold(TcpSum(r)) == 0xFFFF
            && forall i | 0 <= i < |f| && i !in {24, 25, 50, 51} :: r[i] == f[i]
  {
    hide Sum, Fold, Word;
    var g := WithIpChecksum(f);
    IpChecksumBytes(f);
    IpChecksumVerifies(f);
    TcpChecksumVerifies(g);
    SumElsewhere(Checksummed(f), g, 14, 34);
  }

  // ---------- the kernel's code ----------

  method FoldCarries(n: nat) returns (r: nat)
    ensures r == Fold(n)
  {
    r := n;
    while r / 0x1_0000 > 0
      invariant Fold(r) == Fold(n)
      decreases r
    {
      r := r % 0x1_0000 + r / 0x1_0000;
    }
  }

  method AddWords(frame: array<int>, start: nat, lo: nat, hi: nat) returns (sum: nat)
    requires lo <= hi <= frame.Length && AreBytes(frame[..])
    requires start + 0xFFFF * ((hi - lo + 1) / 2) < 0x1_0000_0000
    ensures sum == start + Sum(frame[..], lo, hi)
    ensures sum < 0x1_0000_0000
  {
    sum := start;
    var i := lo;
    SumNonNegative(frame[..], lo, hi);
    while i < hi
      invariant lo <= i <= hi + 1
      invariant sum + Sum(frame[..], i, hi) == start + Sum(frame[..], lo, hi)
      invariant sum < 0x1_0000_0000
    {
      SumNonNegative(frame[..], i, hi);
      SumNonNegative(frame[..], i + 2, hi);
      if i + 1 < hi {
        sum := sum + frame[i] * 256 + frame[i + 1];
      } else {
        sum := sum + frame[i] * 256;
      }
      i := i + 2;
    }
  }

  method RecalculateIp(frame: array<int>)
    requires frame.Length >= 52 && AreBytes(frame[..])
    modifies frame
    ensures frame[..] == WithIpChecksum(old(frame[..]))
  {
    hide Sum, Fold, Word;
    ghost var f := frame[..];
    frame[24], frame[25] := 0, 0;
    assert frame[..] == WithWord(f, 24, 0);
    var chk := AddWords(frame, 0, 14, 34);
    chk := FoldCarries(chk);
    var final := 0xFFFF - chk;
    frame[24], frame[25] := final / 256, final % 256;
  }

  method RecalculateTcp(frame: array<int>)
    requires 52 <= frame.Length <= 14 + 0xFFFF && AreBytes(frame[..])
    modifies frame
    ensures frame[..] == WithTcpChecksum(old(frame[..]))
  {
    hide Sum, Fold, Word;
    ghost var f := frame[..];
    frame[50], frame[51] := 0, 0;
    assert frame[..] == WithWord(f, 50, 0);
    var chk := AddWords(frame, 0, 26, 34);
    SumNonNegative(frame[..], 26, 34);
    chk := chk + 6;
    chk := chk + (frame.Length - 34);
    chk := AddWords(frame, chk, 34, frame.Length);
    chk := FoldCarries(chk);
    var final := 0xFFFF - chk;
    frame[50], frame[51] := final / 256, final % 256;
  }

  /** The 32-bit accumulators do not overflow for any frame that IPv4 can carry. */
  method RecalculateChecksums(frame: array<int>)
    requires 52 <= frame.Length <= 14 + 0xFFFF && AreBytes(frame[..])
    modifies frame
    ensures frame[..] == Checksummed(old(frame[..]))
  {
    IpChecksumBytes(frame[..]);
    RecalculateIp(frame);
    RecalculateTcp(frame);
  }
}
