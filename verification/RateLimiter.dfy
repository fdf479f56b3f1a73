/**
 The per-client rate limiter: a fixed table of last-accepted times with
 oldest-entry eviction, against the unbounded table it stands for.
 */
module RateLimiting {
  import opened Wrappers
  import opened Numbers

  const RATE_TABLE_SIZE := 32
  const MIN_POLL_INTERVAL_US := 2_000_000

  datatype ClientRecord = ClientRecord(addr: u32, lastUs: i64)

  type Table = seq<Option<ClientRecord>>

  predicate Holds(slot: Option<ClientRecord>, addr: u32) {
    slot.Some? && slot.value.addr == addr
  }

  /** The first slot holding `addr`, or the table length. */
  function Find(t: Table, addr: u32): (i: nat)
    ensures i <= |t|
    ensures i < |t| ==> Holds(t[i], addr)
    ensures forall k :: 0 <= k < i ==> !Holds(t[k], addr)
  {
    if t == [] || Holds(t[0], addr) then 0 else 1 + Find(t[1..], addr)
  }

  /** The first empty slot, or the table length. */
  function FirstEmpty(t: Table): (i: nat)
    ensures i <= |t|
    ensures i < |t| ==> t[i].None?
    ensures forall k :: 0 <= k < i ==> t[k].Some?
  {
    if t == [] || t[0].None? then 0 else 1 + FirstEmpty(t[1..])
  }

  function Age(slot: Option<ClientRecord>): i64 {
    if slot.Some? then slot.value.lastUs else I64_MAX
  }

  /** The first of the oldest slots among the first `n`. */
  function Oldest(t: Table, n: nat): (i: nat)
    requires 1 <= n <= |t|
    ensures i < n
    ensures forall k :: 0 <= k < n ==> Age(t[i]) <= Age(t[k])
    ensures forall k :: 0 <= k < i ==> Age(t[i]) < Age(t[k])
  {
    if n == 1 then 0
    else
      var m := Oldest(t, n - 1);
      if Age(t[n - 1]) < Age(t[m]) then n - 1 else m
  }

  /** The answer to a request and the table it leaves. */
  function Checked(t: Table, addr: u32, nowUs: i64): (r: (bool, Table))
    requires |t| > 0
    ensures |r.1| == |t|
  {
    var i := Find(t, addr);
    if i < |t| then
      if Sat(nowUs - t[i].value.lastUs) < MIN_POLL_INTERVAL_US then (false, t)
      else (true, t[i := Some(ClientRecord(addr, nowUs))])
    else
      var e := FirstEmpty(t);
      var slot := if e < |t| then e else Oldest(t, |t|);
      (true, t[slot := Some(ClientRecord(addr, nowUs))])
  }

  class RateLimiter {
    const table: array<Option<ClientRecord>>

    ghost predicate Valid() {
      table.Length == RATE_TABLE_SIZE
    }

    constructor ()
      ensures Valid() && fresh(table)
      ensures table[..] == Empty()
    {
      table := new Option<ClientRecord>[RATE_TABLE_SIZE](_ => None);
    }

    method Check(addr: u32, nowUs: i64) returns (ok: bool)
      requires Valid()
      modifies table
      ensures (ok, table[..]) == Checked(old(table[..]), addr, nowUs)
    {
      ghost var was := table[..];
      for i := 0 to table.Length
        invariant table[..] == was
        invariant forall k :: 0 <= k < i ==> !Holds(was[k], addr)
      {
        if table[i].Some? && table[i].value.addr == addr {
          assert i == Find(was, addr);
          var elapsed := Sat(nowUs - table[i].value.lastUs);
          if elapsed < MIN_POLL_INTERVAL_US {
            return false;
          }
          table[i] := Some(ClientRecord(addr, nowUs));
          return true;
        }
      }
      assert Find(was, addr) == |was|;
      var slot := Slot();
      table[slot] := Some(ClientRecord(addr, nowUs));
      ok := true;
    }

    /** An empty slot, or the slot to evict. */
    method Slot() returns (slot: nat)
      requires Valid()
      ensures slot == if FirstEmpty(table[..]) < table.Length then FirstEmpty(table[..])
                      else Oldest(table[..], table.Length)
      ensures slot < table.Length
    {
      for i := 0 to table.Length
        invariant forall k :: 0 <= k < i ==> table[k].Some?
      {
        if table[i].None? {
          assert table[..][i].None?;
          return i;
        }
      }
      slot := 0;
      for i := 1 to table.Length
        invariant slot == Oldest(table[..], i)
      {
        if Age(table[i]) < Age(table[slot]) {
          slot := i;
        }
      }
    }
  }

  // --- Runs ---

  datatype Request = Request(addr: u32, nowUs: i64)

  function Empty(): (t: Table)
    ensures |t| == RATE_TABLE_SIZE
  {
    seq(RATE_TABLE_SIZE, _ => None)
  }

  /** The table before request `i` of a run that starts at boot. */
  ghost function TableAt(rs: seq<Request>, i: nat): (t: Table)
    requires i <= |rs|
    ensures |t| == RATE_TABLE_SIZE
  {
    if i == 0 then Empty() else Checked(TableAt(rs, i - 1), rs[i - 1].addr, rs[i - 1].nowUs).1
  }

  ghost predicate Accepted(rs: seq<Request>, i: nat)
    requires i < |rs|
  {
    Checked(TableAt(rs, i), rs[i].addr, rs[i].nowUs).0
  }

  ghost predicate Ordered(rs: seq<Request>) {
    forall i, j :: 0 <= i <= j < |rs| ==> rs[i].nowUs <= rs[j].nowUs
  }

  /** At most one record per address. */
  ghost predicate Distinct(t: Table) {
    forall i, j :: 0 <= i < j < |t| && t[i].Some? && t[j].Some? ==> t[i].value.addr != t[j].value.addr
  }

  /** The record was written when one of the first `n` requests was accepted. */
  ghost predicate Witnessed(rs: seq<Request>, n: nat, r: ClientRecord)
    requires n <= |rs|
  {
    exists k :: 0 <= k < n && Accepted(rs, k) && rs[k] == Request(r.addr, r.lastUs)
  }

  lemma CheckKeepsDistinct(t: Table, addr: u32, nowUs: i64)
    requires |t| > 0 && Distinct(t)
    ensures Distinct(Checked(t, addr, nowUs).1)
  {
  }

  /** On every run: one record per address, each from a real acceptance. */
  lemma {:induction false} TableIsTrue(rs: seq<Request>, i: nat)
    requires i <= |rs|
    ensures Distinct(TableAt(rs, i))
    ensures forall k :: 0 <= k < RATE_TABLE_SIZE && TableAt(rs, i)[k].Some?
              ==> Witnessed(rs, i, TableAt(rs, i)[k].value)
  {
    if i > 0 {
      var (t, q) := (TableAt(rs, i - 1), rs[i - 1]);
      TableIsTrue(rs, i - 1);
      CheckKeepsDistinct(t, q.addr, q.nowUs);
      forall k | 0 <= k < RATE_TABLE_SIZE && TableAt(rs, i)[k].Some?
        ensures Witnessed(rs, i, TableAt(rs, i)[k].value)
      {
        if TableAt(rs, i)[k] == t[k] {
          var w :| 0 <= w < i - 1 && Accepted(rs, w) && rs[w] == Request(t[k].value.addr, t[k].value.lastUs);
        } else {
          assert Accepted(rs, i - 1) && rs[i - 1] == Request(q.addr, q.nowUs);
        }
      }
    }
  }

  /** A denial always means a real acceptance of that address less than 2 s earlier. */
  lemma DenialIsDeserved(rs: seq<Request>, i: nat)
    requires i < |rs| && !Accepted(rs, i)
    ensures exists k :: 0 <= k < i && Accepted(rs, k) && rs[k].addr == rs[i].addr
                        && rs[i].nowUs - rs[k].nowUs < MIN_POLL_INTERVAL_US
  {
    TableIsTrue(rs, i);
    var slot := Find(TableAt(rs, i), rs[i].addr);
    assert Witnessed(rs, i, TableAt(rs, i)[slot].value);
  }

  // --- Refinement of the unbounded table ---

  /** The unbounded limiter: every address keeps its last accepted time for ever. */
  ghost function MapChecked(m: map<u32, i64>, addr: u32, nowUs: i64): (bool, map<u32, i64>) {
    if addr in m && Sat(nowUs - m[addr]) < MIN_POLL_INTERVAL_US then (false, m) else (true, m[addr := nowUs])
  }

  ghost function MapAt(rs: seq<Request>, i: nat): map<u32, i64>
    requires i <= |rs|
  {
    if i == 0 then map[] else MapChecked(MapAt(rs, i - 1), rs[i - 1].addr, rs[i - 1].nowUs).1
  }

  ghost function Addresses(rs: seq<Request>): set<u32> {
    set r | r in rs :: r.addr
  }

  ghost function Addrs(t: Table): set<u32> {
    set s | s in t && s.Some? :: s.value.addr
  }

  lemma {:induction false} DistinctFill(t: Table)
    requires Distinct(t) && forall k :: 0 <= k < |t| ==> t[k].Some?
    ensures |Addrs(t)| == |t|
  {
    if t != [] {
      var last := |t| - 1;
      DistinctFill(t[..last]);
      assert t == t[..last] + [t[last]];
      assert Addrs(t) == Addrs(t[..last]) + {t[last].value.addr};
    }
  }

  ghost predicate Listed(t: Table, addr: u32) {
    exists k :: 0 <= k < |t| && Holds(t[k], addr)
  }

  ghost predicate SameContents(t: Table, m: map<u32, i64>) {
    && Distinct(t)
    && (forall k :: 0 <= k < |t| && t[k].Some? ==> t[k].value.addr in m && m[t[k].value.addr] == t[k].value.lastUs)
    && (forall a :: a in m ==> Listed(t, a))
  }

  /** Writing the record of `addr` over its own slot, or over an empty one, is one map update. */
  lemma WriteRefines(t: Table, m: map<u32, i64>, slot: nat, addr: u32, nowUs: i64)
    requires slot < |t| && SameContents(t, m)
    requires if t[slot].Some? then t[slot].value.addr == addr else addr !in m
    ensures SameContents(t[slot := Some(ClientRecord(addr, nowUs))], m[addr := nowUs])
  {
    var (t', m') := (t[slot := Some(ClientRecord(addr, nowUs))], m[addr := nowUs]);
    forall a | a in m' ensures Listed(t', a) {
      if a == addr {
        assert Holds(t'[slot], a);
      } else {
        var k :| 0 <= k < |t| && Holds(t[k], a);
        assert Holds(t'[k], a);
      }
    }
  }

  /** While there is room, one check on the table is one check on the map. */
  lemma CheckRefines(t: Table, m: map<u32, i64>, addr: u32, nowUs: i64)
    requires |t| > 0 && SameContents(t, m)
    requires Find(t, addr) < |t| || FirstEmpty(t) < |t|
    ensures Checked(t, addr, nowUs).0 == MapChecked(m, addr, nowUs).0
    ensures SameContents(Checked(t, addr, nowUs).1, MapChecked(m, addr, nowUs).1)
  {
    var i := Find(t, addr);
    if i < |t| {
      assert addr in m && m[addr] == t[i].value.lastUs;
      WriteRefines(t, m, i, addr, nowUs);
    } else {
      assert !Listed(t, addr);
      WriteRefines(t, m, FirstEmpty(t), addr, nowUs);
    }
  }

  lemma ProperSubset(s: set<u32>, s': set<u32>, a: u32)
    requires s <= s' && a in s' && a !in s
    ensures |s| < |s'|
  {
    Subset(s, s' - {a});
  }

  lemma RoomForAll(rs: seq<Request>, i: nat)
    requires i < |rs| && |Addresses(rs)| <= RATE_TABLE_SIZE
    ensures Find(TableAt(rs, i), rs[i].addr) < RATE_TABLE_SIZE || FirstEmpty(TableAt(rs, i)) < RATE_TABLE_SIZE
  {
    TableIsTrue(rs, i);
    KnownAddresses(rs, i);
    if |Addrs(TableAt(rs, i))| == RATE_TABLE_SIZE && rs[i].addr !in Addrs(TableAt(rs, i)) {
      hide TableAt;
      ProperSubset(Addrs(TableAt(rs, i)), Addresses(rs), rs[i].addr);
    }
    NoRoomMeansFullWithout(TableAt(rs, i), rs[i].addr);
  }

  lemma NoRoomMeansFullWithout(t: Table, addr: u32)
    requires Distinct(t)
    ensures Find(t, addr) == |t| && FirstEmpty(t) == |t| ==> |Addrs(t)| == |t| && addr !in Addrs(t)
  {
    if FirstEmpty(t) == |t| {
      DistinctFill(t);
    }
  }

  /** Every address in the table has been seen in the run. */
  lemma KnownAddresses(rs: seq<Request>, i: nat)
    requires i <= |rs|
    ensures Addrs(TableAt(rs, i)) <= Addresses(rs)
  {
    hide TableAt, Find, FirstEmpty;
    TableIsTrue(rs, i);
    forall a | a in Addrs(TableAt(rs, i)) ensures a in Addresses(rs) {
      var k :| 0 <= k < RATE_TABLE_SIZE && TableAt(rs, i)[k].Some? && TableAt(rs, i)[k].value.addr == a;
      assert Witnessed(rs, i, TableAt(rs, i)[k].value);
    }
  }

  lemma {:induction false} Subset(s: set<u32>, s': set<u32>)
    requires s <= s'
    ensures |s| <= |s'|
  {
    assert s' == s + (s' - s);
  }

  lemma {:induction false} ContentsAgree(rs: seq<Request>, i: nat)
    requires i <= |rs| && |Addresses(rs)| <= RATE_TABLE_SIZE
    ensures SameContents(TableAt(rs, i), MapAt(rs, i))
  {
    hide Find, FirstEmpty, Oldest, Checked, MapChecked;
    if i > 0 {
      ContentsAgree(rs, i - 1);
      RoomForAll(rs, i - 1);
      CheckRefines(TableAt(rs, i - 1), MapAt(rs, i - 1), rs[i - 1].addr, rs[i - 1].nowUs);
    }
  }

  /** On any run with at most 32 distinct addresses the table answers exactly as the unbounded one. */
  lemma LimiterRefinesMap(rs: seq<Request>, i: nat)
    requires i < |rs| && |Addresses(rs)| <= RATE_TABLE_SIZE
    ensures Accepted(rs, i) == MapChecked(MapAt(rs, i), rs[i].addr, rs[i].nowUs).0
  {
    ContentsAgree(rs, i);
    RoomForAll(rs, i);
    CheckRefines(TableAt(rs, i), MapAt(rs, i), rs[i].addr, rs[i].nowUs);
  }

  // --- Eviction ---

  /** Addresses other than `addr` accepted in the closed interval `[lo, hi]`, among the first `n` requests. */
  ghost function OthersAccepted(rs: seq<Request>, n: nat, addr: u32, lo: int, hi: int): set<u32>
    requires n <= |rs|
  {
    set k | 0 <= k < n && Accepted(rs, k) && lo <= rs[k].nowUs <= hi && rs[k].addr != addr :: rs[k].addr
  }

  ghost predicate HasRecord(t: Table, r: ClientRecord) {
    exists k :: 0 <= k < |t| && t[k] == Some(r)
  }

  /** A record disappears without a request of its own only as the oldest of a full table. */
  lemma EvictedAsOldest(t: Table, q: Request, r: ClientRecord)
    requires |t| > 0 && Distinct(t) && q.addr != r.addr
    requires HasRecord(t, r) && !HasRecord(Checked(t, q.addr, q.nowUs).1, r)
    ensures var t' := Checked(t, q.addr, q.nowUs).1;
            && (forall k :: 0 <= k < |t| ==> t'[k].Some? && t'[k].value.addr != r.addr)
            && (forall k :: 0 <= k < |t| ==>
                  t'[k].value.lastUs >= r.lastUs || t'[k] == Some(ClientRecord(q.addr, q.nowUs)))
  {
    var k :| 0 <= k < |t| && t[k] == Some(r);
    var t' := Checked(t, q.addr, q.nowUs).1;
    assert t'[k] != t[k];
    assert k == Oldest(t, |t|);
  }

  /** Evicting the oldest of a full table leaves 32 other addresses, all accepted since. */
  lemma EvictionIsCrowded(rs: seq<Request>, n: nat, r: ClientRecord)
    requires n < |rs| && Ordered(rs)
    requires HasRecord(TableAt(rs, n), r) && !HasRecord(TableAt(rs, n + 1), r) && rs[n].addr != r.addr
    requires r.lastUs <= rs[n].nowUs
    ensures |OthersAccepted(rs, n + 1, r.addr, r.lastUs, rs[n].nowUs)| >= RATE_TABLE_SIZE
  {
    hide TableAt, Find, FirstEmpty, Oldest, Checked, OthersAccepted, Distinct;
    TableIsTrue(rs, n);
    TableIsTrue(rs, n + 1);
    NextTable(rs, n);
    EvictedAsOldest(TableAt(rs, n), rs[n], r);
    DistinctFill(TableAt(rs, n + 1));
    RecordsWereAccepted(rs, n + 1, r);
    Subset(Addrs(TableAt(rs, n + 1)), OthersAccepted(rs, n + 1, r.addr, r.lastUs, rs[n].nowUs));
  }

  lemma NextTable(rs: seq<Request>, n: nat)
    requires n < |rs|
    ensures TableAt(rs, n + 1) == Checked(TableAt(rs, n), rs[n].addr, rs[n].nowUs).1
  {
  }

  /** The addresses of a table of newer records were all accepted since. */
  lemma RecordsWereAccepted(rs: seq<Request>, n: nat, r: ClientRecord)
    requires 0 < n <= |rs| && Ordered(rs)
    requires forall k :: 0 <= k < RATE_TABLE_SIZE && TableAt(rs, n)[k].Some?
               ==> TableAt(rs, n)[k].value.addr != r.addr && r.lastUs <= TableAt(rs, n)[k].value.lastUs
    ensures Addrs(TableAt(rs, n)) <= OthersAccepted(rs, n, r.addr, r.lastUs, rs[n - 1].nowUs)
  {
    hide TableAt, Checked;
    var t := TableAt(rs, n);
    TableIsTrue(rs, n);
    forall a | a in Addrs(t) ensures a in OthersAccepted(rs, n, r.addr, r.lastUs, rs[n - 1].nowUs) {
      var k :| 0 <= k < RATE_TABLE_SIZE && t[k].Some? && t[k].value.addr == a;
      assert Witnessed(rs, n, t[k].value);
    }
  }

  /** After an acceptance the record stays until 32 other addresses have been accepted. */
  lemma {:induction false} KeptOrCrowded(rs: seq<Request>, i: nat, n: nat)
    requires i < n <= |rs| && Ordered(rs) && Accepted(rs, i)
    requires rs[n - 1].nowUs - rs[i].nowUs < MIN_POLL_INTERVAL_US
    ensures HasRecord(TableAt(rs, n), ClientRecord(rs[i].addr, rs[i].nowUs))
            || |OthersAccepted(rs, n, rs[i].addr, rs[i].nowUs, rs[n - 1].nowUs)| >= RATE_TABLE_SIZE
    decreases n
  {
    hide TableAt, Checked, Find, FirstEmpty, Oldest;
    var r := ClientRecord(rs[i].addr, rs[i].nowUs);
    if n == i + 1 {
      AcceptanceIsRecorded(rs, i);
    } else {
      KeptOrCrowded(rs, i, n - 1);
      if !HasRecord(TableAt(rs, n - 1), r) {
        Subset(OthersAccepted(rs, n - 1, r.addr, r.lastUs, rs[n - 2].nowUs),
               OthersAccepted(rs, n, r.addr, r.lastUs, rs[n - 1].nowUs));
      } else if rs[n - 1].addr == r.addr {
        RecordDenies(rs, n - 1, r);
      } else if !HasRecord(TableAt(rs, n), r) {
        EvictionIsCrowded(rs, n - 1, r);
      }
    }
  }

  lemma CheckRecords(t: Table, addr: u32, nowUs: i64)
    requires |t| > 0 && Checked(t, addr, nowUs).0
    ensures HasRecord(Checked(t, addr, nowUs).1, ClientRecord(addr, nowUs))
  {
    var t' := Checked(t, addr, nowUs).1;
    if Find(t, addr) < |t| {
      assert t'[Find(t, addr)] == Some(ClientRecord(addr, nowUs));
    } else if FirstEmpty(t) < |t| {
      assert t'[FirstEmpty(t)] == Some(ClientRecord(addr, nowUs));
    } else {
      assert t'[Oldest(t, |t|)] == Some(ClientRecord(addr, nowUs));
    }
  }

  lemma AcceptanceIsRecorded(rs: seq<Request>, i: nat)
    requires i < |rs| && Accepted(rs, i)
    ensures HasRecord(TableAt(rs, i + 1), ClientRecord(rs[i].addr, rs[i].nowUs))
  {
    hide Checked, HasRecord;
    CheckRecords(TableAt(rs, i), rs[i].addr, rs[i].nowUs);
  }

  lemma RecordDenies(rs: seq<Request>, n: nat, r: ClientRecord)
    requires n < |rs| && HasRecord(TableAt(rs, n), r) && rs[n].addr == r.addr
    requires rs[n].nowUs - r.lastUs < MIN_POLL_INTERVAL_US
    ensures !Accepted(rs, n) && TableAt(rs, n + 1) == TableAt(rs, n)
  {
    hide TableAt, Checked, HasRecord, Distinct;
    TableIsTrue(rs, n);
    CheckDenies(TableAt(rs, n), r, rs[n].nowUs);
    NextTable(rs, n);
  }

  lemma CheckDenies(t: Table, r: ClientRecord, nowUs: i64)
    requires |t| > 0 && Distinct(t) && HasRecord(t, r) && nowUs - r.lastUs < MIN_POLL_INTERVAL_US
    ensures Checked(t, r.addr, nowUs) == (false, t)
  {
    var k :| 0 <= k < |t| && t[k] == Some(r);
    assert Find(t, r.addr) == k;
  }

  /**
   With a nondecreasing clock the limit is defeated only by a crowd: if one
   address is accepted twice less than 2 s apart, at least 32 other distinct
   addresses were accepted in the closed interval between the two acceptances.
   */
  lemma DefeatedOnlyByCrowd(rs: seq<Request>, i: nat, j: nat)
    requires i < j < |rs| && Ordered(rs)
    requires rs[i].addr == rs[j].addr && Accepted(rs, i) && Accepted(rs, j)
    requires rs[j].nowUs - rs[i].nowUs < MIN_POLL_INTERVAL_US
    ensures |OthersAccepted(rs, j, rs[i].addr, rs[i].nowUs, rs[j].nowUs)| >= RATE_TABLE_SIZE
  {
    var r := ClientRecord(rs[i].addr, rs[i].nowUs);
    KeptOrCrowded(rs, i, j);
    if HasRecord(TableAt(rs, j), r) {
      RecordDenies(rs, j, r);
    } else {
      Subset(OthersAccepted(rs, j, r.addr, r.lastUs, rs[j - 1].nowUs),
             OthersAccepted(rs, j, r.addr, r.lastUs, rs[j].nowUs));
    }
  }
}
