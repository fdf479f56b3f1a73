/** The bound of the rate limiter is attained: 32 other addresses are enough to defeat it. */
module Crowd {
  import opened Wrappers
  import opened Numbers
  import opened RateLimiting

  /** Addresses 0 to 32 ask once each, a microsecond apart, and then address 0 asks again. */
  function Rush(): (rs: seq<Request>)
    ensures |rs| == 34
    ensures forall k :: 0 <= k < 33 ==> rs[k] == Request(k, k)
    ensures rs[33] == Request(0, 33)
  {
    seq(33, k requires 0 <= k < 33 => Request(k, k)) + [Request(0, 33)]
  }

  /** The table after `n` of them. */
  function Filling(n: nat): (t: Table)
    requires n <= RATE_TABLE_SIZE
    ensures |t| == RATE_TABLE_SIZE
    ensures forall k :: 0 <= k < n ==> t[k] == Some(ClientRecord(k, k))
    ensures forall k :: n <= k < RATE_TABLE_SIZE ==> t[k] == None
  {
    seq(RATE_TABLE_SIZE, k requires 0 <= k < RATE_TABLE_SIZE => if k < n then Some(ClientRecord(k, k)) else None)
  }

  lemma FirstEmptyAt(t: Table, n: nat)
    requires n < |t| && t[n].None? && forall k :: 0 <= k < n ==> t[k].Some?
    ensures FirstEmpty(t) == n
  {
  }

  lemma EmptyAtBoot(rs: seq<Request>)
    ensures TableAt(rs, 0) == Empty() == Filling(0)
  {
  }

  lemma NewcomerTakesEmptySlot(n: nat)
    requires n < RATE_TABLE_SIZE
    ensures Checked(Filling(n), n, n) == (true, Filling(n + 1))
  {
    var t := Filling(n);
    assert Find(t, n) == |t|;
    FirstEmptyAt(t, n);
    assert t[n := Some(ClientRecord(n, n))] == Filling(n + 1);
  }

  lemma {:induction false} FilledInOrder(n: nat)
    requires n <= RATE_TABLE_SIZE
    ensures TableAt(Rush(), n) == Filling(n)
    ensures forall k :: 0 <= k < n ==> Accepted(Rush(), k)
  {
    hide TableAt, Checked, Find, FirstEmpty, Oldest, Filling, Rush;
    if n == 0 {
      EmptyAtBoot(Rush());
    } else {
      FilledInOrder(n - 1);
      NewcomerTakesEmptySlot(n - 1);
      NextTable(Rush(), n - 1);
    }
  }

  /** The 33rd address evicts address 0, the oldest of a full table. */
  lemma LastNewcomerEvicts()
    ensures Checked(Filling(RATE_TABLE_SIZE), 32, 32)
         == (true, Filling(RATE_TABLE_SIZE)[0 := Some(ClientRecord(32, 32))])
  {
    var t := Filling(RATE_TABLE_SIZE);
    assert Find(t, 32) == |t| && FirstEmpty(t) == |t|;
    var oldest := Oldest(t, |t|);
    assert Age(t[oldest]) <= Age(t[0]) && t[oldest] == Some(ClientRecord(oldest, oldest));
  }

  function UpTo(n: u32): (s: set<u32>)
    ensures |s| == n && forall a :: a in s <==> 1 <= a <= n
  {
    if n == 0 then {} else UpTo(n - 1) + {n}
  }

  lemma ForgottenIsWelcome()
    ensures Checked(Filling(RATE_TABLE_SIZE)[0 := Some(ClientRecord(32, 32))], 0, 33).0
  {
    var t := Filling(RATE_TABLE_SIZE)[0 := Some(ClientRecord(32, 32))];
    assert Find(t, 0) == |t|;
  }

  lemma AllAccepted()
    ensures forall k :: 0 <= k < 34 ==> Accepted(Rush(), k)
  {
    hide TableAt, Checked, Find, FirstEmpty, Oldest, Filling, Rush;
    FilledInOrder(RATE_TABLE_SIZE);
    LastNewcomerEvicts();
    NextTable(Rush(), 32);
    ForgottenIsWelcome();
    assert Accepted(Rush(), 32) && Accepted(Rush(), 33);
  }

  /** Address 0 is accepted twice within 33 us, with exactly 32 other addresses accepted in between. */
  lemma CrowdOf32Defeats()
    ensures var rs := Rush();
            && Ordered(rs) && rs[0].addr == rs[33].addr && Accepted(rs, 0) && Accepted(rs, 33)
            && rs[33].nowUs - rs[0].nowUs < MIN_POLL_INTERVAL_US
            && |OthersAccepted(rs, 33, rs[0].addr, rs[0].nowUs, rs[33].nowUs)| == RATE_TABLE_SIZE
  {
    hide Accepted, Rush, UpTo, TableAt;
    var rs := Rush();
    AllAccepted();
    var others := OthersAccepted(rs, 33, 0, 0, 33);
    forall a | a in UpTo(32) ensures a in others {
      assert rs[a].addr == a;
    }
    assert others == UpTo(32);
  }
}
