/** The 16-entry ARP table, against the history of everything inserted into it. */
module ArpCache {
  import opened Wrappers

  type Ip = seq<int>
  type Mac = seq<int>

  const SIZE := 16

  datatype Entry = Entry(ip: Ip, mac: Mac, active: bool)

  /** The first active entry for `ip`, or the number of entries. */
  function Find(es: seq<Entry>, ip: Ip): (i: nat)
    ensures i <= |es|
    ensures i < |es| ==> es[i].active && es[i].ip == ip
    ensures forall j | 0 <= j < i :: !(es[j].active && es[j].ip == ip)
  {
    if es == [] then 0 else if es[0].active && es[0].ip == ip then 0 else 1 + Find(es[1..], ip)
  }

  /** The first inactive entry, or the number of entries. */
  function Free(es: seq<Entry>): (i: nat)
    ensures i <= |es|
    ensures i < |es| ==> !es[i].active
    ensures forall j | 0 <= j < i :: es[j].active
  {
    if es == [] then 0 else if !es[0].active then 0 else 1 + Free(es[1..])
  }

  function Inserted(es: seq<Entry>, ip: Ip, mac: Mac): (r: seq<Entry>)
    ensures |r| == |es|
  {
    var i, f := Find(es, ip), Free(es);
    if i < |es| then es[i := es[i].(mac := mac)]
    else if f < |es| then es[f := Entry(ip, mac, true)]
    else es
  }

  function Lookup(es: seq<Entry>, ip: Ip): Option<Mac> {
    var i := Find(es, ip);
    if i < |es| then Some(es[i].mac) else None
  }

  const BLANK := Entry([0, 0, 0, 0], [0, 0, 0, 0, 0, 0], false)

  // ---------- the history ----------

  datatype Claim = Claim(ip: Ip, mac: Mac)

  function Table(h: seq<Claim>): (es: seq<Entry>)
    ensures |es| == SIZE
  {
    if h == [] then seq(SIZE, _ => BLANK) else Inserted(Table(h[..|h| - 1]), h[|h| - 1].ip, h[|h| - 1].mac)
  }

  /** The addresses of a history in order of first appearance. */
  function Distinct(h: seq<Claim>): seq<Ip> {
    if h == [] then []
    else
      var before, ip := Distinct(h[..|h| - 1]), h[|h| - 1].ip;
      if ip in before then before else before + [ip]
  }

  /** The MAC last claimed for `ip`. */
  function Latest(h: seq<Claim>, ip: Ip): Option<Mac> {
    if h == [] then None
    else if h[|h| - 1].ip == ip then Some(h[|h| - 1].mac)
    else Latest(h[..|h| - 1], ip)
  }

  /** The addresses that got a slot: the first sixteen. */
  function Kept(h: seq<Claim>): seq<Ip> {
    var d := Distinct(h);
    if |d| <= 16 then d else d[..16]
  }

  lemma {:induction false} DistinctIsDistinct(h: seq<Claim>)
    ensures forall i, j | 0 <= i < j < |Distinct(h)| :: Distinct(h)[i] != Distinct(h)[j]
    ensures forall ip :: ip in Distinct(h) <==> Latest(h, ip).Some?
  {
    if h != [] { DistinctIsDistinct(h[..|h| - 1]); }
  }

  /** Active entries are a prefix; entry i holds the i-th address kept and its latest MAC. */
  ghost predicate Represents(es: seq<Entry>, h: seq<Claim>) {
    && |es| == SIZE
    && (forall i | 0 <= i < SIZE :: es[i].active <==> i < |Kept(h)|)
    && (forall i | 0 <= i < |Kept(h)| :: es[i].ip == Kept(h)[i] && Latest(h, es[i].ip) == Some(es[i].mac))
  }

  lemma KeptStep(h: seq<Claim>)
    requires h != []
    ensures var before, ip := Kept(h[..|h| - 1]), h[|h| - 1].ip;
            Kept(h) == if ip in before || |before| == SIZE then before else before + [ip]
  {}

  lemma KeptDistinct(h: seq<Claim>)
    ensures |Kept(h)| <= SIZE
    ensures forall i, j | 0 <= i < j < |Kept(h)| :: Kept(h)[i] != Kept(h)[j]
  {
    DistinctIsDistinct(h);
  }

  lemma UpdateRepresents(es: seq<Entry>, h: seq<Claim>, i: nat)
    requires h != [] && Represents(es, h[..|h| - 1]) && i < SIZE && es[i].active && es[i].ip == h[|h| - 1].ip
    ensures Represents(es[i := es[i].(mac := h[|h| - 1].mac)], h)
  {
    KeptStep(h);
    KeptDistinct(h);
    hide Kept;
  }

  lemma AddRepresents(es: seq<Entry>, h: seq<Claim>, f: nat)
    requires h != [] && Represents(es, h[..|h| - 1]) && f < SIZE && !es[f].active
    requires forall j | 0 <= j < SIZE :: !(es[j].active && es[j].ip == h[|h| - 1].ip)
    requires forall j | 0 <= j < f :: es[j].active
    ensures Represents(es[f := Entry(h[|h| - 1].ip, h[|h| - 1].mac, true)], h)
  {
    KeptStep(h);
    hide Kept;
    var before, ip := Kept(h[..|h| - 1]), h[|h| - 1].ip;
    assert !es[|before|].active;
    assert f == |before|;
    assert ip !in before by {
      forall j | 0 <= j < |before| ensures before[j] != ip { assert es[j].ip == before[j]; }
    }
  }

  lemma FullRepresents(es: seq<Entry>, h: seq<Claim>)
    requires h != [] && Represents(es, h[..|h| - 1])
    requires forall j | 0 <= j < SIZE :: es[j].active && es[j].ip != h[|h| - 1].ip
    ensures Represents(es, h)
  {
    KeptStep(h);
    KeptDistinct(h[..|h| - 1]);
    hide Kept;
    assert es[SIZE - 1].active;
  }

  lemma InsertRepresents(es: seq<Entry>, h: seq<Claim>)
    requires h != [] && Represents(es, h[..|h| - 1])
    ensures Represents(Inserted(es, h[|h| - 1].ip, h[|h| - 1].mac), h)
  {
    assert |es| == SIZE;
    hide Represents;
    var i, f := Find(es, h[|h| - 1].ip), Free(es);
    if i < SIZE {
      UpdateRepresents(es, h, i);
    } else if f < SIZE {
      AddRepresents(es, h, f);
    } else {
      FullRepresents(es, h);
    }
  }

  lemma {:induction false} TableRepresents(h: seq<Claim>)
    ensures Represents(Table(h), h)
  {
    if h != [] {
      TableRepresents(h[..|h| - 1]);
      InsertRepresents(Table(h[..|h| - 1]), h);
    }
  }

  /** After any history, a lookup answers the latest MAC of the first 16 distinct addresses and nothing else. */
  lemma LookupAnswersHistory(h: seq<Claim>, ip: Ip)
    ensures Lookup(Table(h), ip) == if ip in Kept(h) then Latest(h, ip) else None
  {
    TableRepresents(h);
    DistinctIsDistinct(h);
    if ip in Kept(h) {
      var i :| 0 <= i < |Kept(h)| && Kept(h)[i] == ip;
      assert Table(h)[i].active && Table(h)[i].ip == ip;
    }
  }

  lemma {:induction false} ActiveEntriesDistinct(h: seq<Claim>)
    ensures var es := Table(h);
            && (forall i, j | 0 <= i < j < SIZE && es[j].active :: es[i].active && es[i].ip != es[j].ip)
  {
    TableRepresents(h);
    DistinctIsDistinct(h);
  }

  // ---------- the kernel's code ----------

  class Cache {
    const entries: array<Entry>

    ghost predicate Valid() { entries.Length == SIZE }

    constructor ()
      ensures Valid() && fresh(entries) && entries[..] == Table([])
    {
      entries := new Entry[SIZE](_ => BLANK);
    }

    method Insert(ip: Ip, mac: Mac)
      requires Valid()
      modifies entries
      ensures entries[..] == Inserted(old(entries[..]), ip, mac)
    {
      ghost var es := entries[..];
      for i := 0 to entries.Length
        invariant entries[..] == es
        invariant forall j | 0 <= j < i :: !(es[j].active && es[j].ip == ip)
      {
        if entries[i].active && entries[i].ip == ip {
          assert Find(es, ip) == i;
          entries[i] := entries[i].(mac := mac);
          return;
        }
      }
      for i := 0 to entries.Length
        invariant entries[..] == es
        invariant forall j | 0 <= j < i :: es[j].active
      {
        if !entries[i].active {
          assert Free(es) == i;
          entries[i] := Entry(ip, mac, true);
          return;
        }
      }
    }

    method LookupMac(ip: Ip) returns (r: Option<Mac>)
      requires Valid()
      ensures r == Lookup(entries[..], ip)
    {
      for i := 0 to entries.Length
        invariant forall j | 0 <= j < i :: !(entries[j].active && entries[j].ip == ip)
      {
        if entries[i].active && entries[i].ip == ip {
          assert Find(entries[..], ip) == i;
          return Some(entries[i].mac);
        }
      }
      return None;
    }
  }
}
