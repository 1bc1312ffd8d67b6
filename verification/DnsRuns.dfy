// Runs of the resolver: what becomes of the requests along every run, told without the functions that say what
// an operation does.
module DnsRuns {
  import opened Wrappers
  import opened DnsAnswer
  import opened DnsTable
  import opened Dns

  // ---------------------------------------------------------------- the countdown of one entry

  // When the r-th retry at a server comes, in ticks since the first query to it: after 1, 2, 4, 7, ... ticks.
  function Offset(r: nat): nat {
    if r == 0 then 0 else 1 + r * (r - 1) / 2
  }

  // The ticks that one server is asked for.
  function Patience(retries: nat): nat
    requires 0 < retries
  {
    1 + retries * (retries - 1) / 2
  }

  ghost predicate AllServers(a: View) {
    forall s :: 0 <= s < |a.servers| ==> a.servers[s] != 0
  }

  // With all servers set, an entry is given up at the next tick exactly if one tick is left.
  lemma LastTick(c: Config, servers: seq<nat>, e: Entry)
    requires c.Valid() && |servers| == c.servers && GoodEntry(c, e) && e.state == Asking
    requires forall s :: 0 <= s < |servers| ==> servers[s] != 0
    ensures Hopeless(c, servers, e) <==> Due(c, e) == 1
  {
    if e.retries + 1 < c.retries {
      assert 0 < Waits(e.retries, c.retries);
    }
    if e.serverIdx + 1 < c.servers {
      assert 0 < Budget(c.servers - 1 - e.serverIdx, c.retries);
    }
  }

  // How far the entry has come tells how long it has been asked.
  lemma SinceAsked(c: Config, e: Entry)
    requires c.Valid() && GoodEntry(c, e) && e.state == Asking
    ensures var since := Budget(c.servers, c.retries) - Due(c, e) - e.serverIdx * Patience(c.retries);
      Offset(e.retries) <= since == Offset(e.retries + 1) - e.tmr < Offset(e.retries + 1)
  {
    var n, r, m := c.servers - 1 - e.serverIdx, e.retries, c.retries;
    BudgetIs(n, m);
    BudgetIs(c.servers, m);
    WaitsSum(r, m);
    Halves(m, r);
    Spread(c.servers, e.serverIdx, Patience(m));
    hide Patience, Offset, Waits, Budget;
    HalfSum(m, r, Patience(m), Offset(r + 1), Waits(r, m));
  }

  lemma Spread(servers: nat, at: nat, p: nat)
    requires at < servers
    ensures servers * p == (servers - 1 - at) * p + at * p + p
  {
    assert servers * p - at * p == (servers - at) * p;
    assert (servers - at) * p == (servers - at - 1) * p + p;
  }

  lemma HalfSum(m: int, r: int, p: int, o: int, w: int)
    requires 2 * p == 2 + m * (m - 1) && 2 * o == 2 + r * (r + 1) && 2 * w == m * (m - 1) - r * (r + 1)
    ensures p - w == o
  {
  }

  lemma Halves(m: nat, r: nat)
    requires r < m
    ensures 2 * Patience(m) == 2 + m * (m - 1) && 2 * Offset(r + 1) == 2 + r * (r + 1)
    ensures Offset(r + 1) == Offset(r) + if r == 0 then 1 else r
  {
    Even(m);
    Even(r + 1);
    Even(r);
    assert r * (r + 1) == r * (r - 1) + 2 * r;
  }

  lemma {:induction false} Even(m: int)
    requires 0 <= m
    ensures m * (m - 1) % 2 == 0
  {
    if 0 < m {
      Even(m - 1);
      assert m * (m - 1) == (m - 1) * (m - 2) + 2 * (m - 1);
    }
  }

  // How often an entry has asked server s since it was filled.
  function Asks(c: Config, e: Entry, s: nat): nat {
    if s < e.serverIdx then c.retries else if s == e.serverIdx then e.retries + 1 else 0
  }

  // ---------------------------------------------------------------- an entry that nobody answers

  // Nothing comes for entry i, and all servers stay set.
  ghost predicate Unanswered(a: View, op: Op, i: nat) {
    AllServers(a) && (op.Datagram? ==> !Matches(a.table, i, op.p))
  }

  ghost predicate NobodyAnswers(trace: seq<View>, ops: seq<Op>, i: nat, n: nat, j: nat)
    requires |trace| == |ops| + 1
  {
    n <= j <= |ops| && forall m :: n <= m < j ==> Unanswered(trace[m], ops[m], i)
  }

  // The request waits for the entry.
  predicate WaitsFor(f: Fate, i: nat) {
    f.Waiting? && f.entry == i
  }

  // One operation meanwhile: a tick brings the entry nearer to its end, asks a server again if it is time to,
  // and ends it when its time is over; nothing else touches it.
  lemma OneOp(a: View, op: Op, b: View, i: nat, k: nat)
    requires Fine(a) && Fine(b) && Stepped(a, op, b) && Unanswered(a, op, i)
    requires i < |a.table| && a.table[i].state == Asking && k < |a.fate| && WaitsFor(a.fate[k], i)
    ensures i < |b.table| && k < |b.fate| && b.ticks == a.ticks + if op.Tick? then 1 else 0
    ensures if op.Tick? && Due(a.cfg, a.table[i]) == 1 then b.fate[k] == Called(None)
            else
              && b.fate[k] == a.fate[k] && b.table[i].state == Asking && (!op.Tick? ==> b.table[i] == a.table[i])
              && Due(a.cfg, b.table[i]) == Due(a.cfg, a.table[i]) - if op.Tick? then 1 else 0
    ensures forall s: nat :: Queries(b.sent, i, s) == Queries(a.sent, i, s) +
              if op.Tick? && Due(a.cfg, a.table[i]) != 1 then
                Asks(a.cfg, b.table[i], s) - Asks(a.cfg, a.table[i], s)
              else 0
  {
    hide Due;
    match op {
      case Tick =>
        LastTick(a.cfg, a.servers, a.table[i]);
      case Query(name, created, _) =>
        if b.sent != a.sent {
          forall s: nat ensures Queries(b.sent, i, s) == Queries(a.sent, i, s) {
            OneMoreQuery(a.sent, b.sent[|a.sent|], i, s);
          }
        }
        assert k < |a.fate| && b.fate != a.fate ==> b.fate[k] == b.fate[..|a.fate|][k];
      case Datagram(p, sender, behind) => OtherPacket(a, p, sender, behind, b, i, k);
      case Server(_, _) =>
    }
  }

  lemma OtherPacket(a: View, p: Packet, sender: nat, behind: nat -> byte, b: View, i: nat, k: nat)
    requires Got(a, p, sender, behind, b) && i < |a.table| && !Matches(a.table, i, p)
    requires k < |a.fate| && WaitsFor(a.fate[k], i)
    ensures b.table[i] == a.table[i] && b.fate[k] == a.fate[k]
    ensures forall s: nat :: Queries(b.sent, i, s) == Queries(a.sent, i, s)
  {
    if t :| 0 <= t < |a.table| && Matches(a.table, t, p) {
      hide Matches, Judged, Due;
      if b.sent != a.sent {
        forall s: nat ensures Queries(b.sent, i, s) == Queries(a.sent, i, s) {
          OneMoreQuery(a.sent, b.sent[|a.sent|], i, s);
        }
      }
    }
  }

  // A request that was called back stays as it is.
  lemma StaysCalled(a: View, op: Op, b: View, k: nat)
    requires Stepped(a, op, b) && k < |a.fate| && a.fate[k].Called?
    ensures k < |b.fate| && b.fate[k] == a.fate[k] && b.cfg == a.cfg
    ensures b.ticks == a.ticks + if op.Tick? then 1 else 0
  {
    match op {
      case Query(name, created, _) =>
        assert b.fate != a.fate ==> b.fate[k] == b.fate[..|a.fate|][k];
      case Datagram(p, sender, behind) =>
        if t :| 0 <= t < |a.table| && Matches(a.table, t, p) {
          hide Matches, Judged, Due;
        }
      case _ =>
    }
  }

  // What is asked altogether once an entry has come to its end.
  lemma AskedAll(c: Config, e: Entry)
    requires c.Valid() && GoodEntry(c, e) && e.state == Asking && Due(c, e) == 1
    ensures forall s: nat :: Asks(c, e, s) == if s < c.servers then c.retries else 0
  {
    assert e.retries + 1 < c.retries ==> 0 < Waits(e.retries, c.retries);
    var left: nat := c.servers - 1 - e.serverIdx;
    assert 0 < left ==> 0 < Budget(left, c.retries);
  }

  // Request k waits for entry i in state n, and nobody answers until state j.
  ghost predicate InVain(trace: seq<View>, ops: seq<Op>, i: nat, k: nat, n: nat, j: nat) {
    && IsRun(trace, ops) && NobodyAnswers(trace, ops, i, n, j)
    && i < |trace[n].table| && trace[n].table[i].state == Asking
    && k < |trace[n].fate| && WaitsFor(trace[n].fate[k], i)
  }

  // As long as time is left it still waits, and afterwards it has been called back without an address; the
  // entry has asked as often as its state tells, and in the end every server R times.
  ghost predicate StillWaits(trace: seq<View>, ops: seq<Op>, i: nat, k: nat, n: nat, j: nat)
    requires |trace| == |ops| + 1 && n <= j <= |ops| && i < |trace[n].table| && k < |trace[n].fate|
  {
    var a, b, c := trace[n], trace[j], trace[n].cfg;
    var e, past := a.table[i], b.ticks - a.ticks;
    && b.cfg == c && k < |b.fate|
    && if past < Due(c, e) then
         && i < |b.table| && b.table[i].state == Asking && b.fate[k] == a.fate[k]
         && Due(c, b.table[i]) == Due(c, e) - past
         && forall s: nat :: Queries(b.sent, i, s) - Queries(a.sent, i, s) == Asks(c, b.table[i], s) - Asks(c, e, s)
       else
         && b.fate[k] == Called(None)
         && (past == Due(c, e) && n < j && ops[j - 1].Tick? ==> forall s: nat ::
               Queries(b.sent, i, s) - Queries(a.sent, i, s)
               == (if s < c.servers then c.retries else 0) - Asks(c, e, s))
  }

  lemma {:induction false} WaitsOn(trace: seq<View>, ops: seq<Op>, i: nat, k: nat, n: nat, j: nat)
    requires InVain(trace, ops, i, k, n, j)
    ensures StillWaits(trace, ops, i, k, n, j)
    decreases j
  {
    hide Stepped, Fine, Due, Unanswered;
    OnlyGood(trace[n], i);
    if n < j {
      WaitsOn(trace, ops, i, k, n, j - 1);
      WaitNext(trace, ops, i, k, n, j - 1);
    }
  }

  lemma OnlyGood(a: View, i: nat)
    requires Fine(a) && i < |a.table|
    ensures a.cfg.Valid() && GoodEntry(a.cfg, a.table[i]) && (a.table[i].state == Asking ==> 0 < Due(a.cfg, a.table[i]))
  {
    if a.table[i].state == Asking {
      DueBounds(a.cfg, a.table[i]);
    }
  }

  lemma WaitNext(trace: seq<View>, ops: seq<Op>, i: nat, k: nat, n: nat, j: nat)
    requires InVain(trace, ops, i, k, n, j + 1) && n <= j < |ops| && StillWaits(trace, ops, i, k, n, j)
    ensures StillWaits(trace, ops, i, k, n, j + 1)
  {
    hide Stepped, Fine, Due, Unanswered, Asks;
    var a, b := trace[j], trace[j + 1];
    if trace[j].ticks - trace[n].ticks < Due(trace[n].cfg, trace[n].table[i]) {
      OnlyGood(a, i);
      OneOp(a, ops[j], b, i, k);
      CfgStays(a, ops[j], b);
      if Due(a.cfg, a.table[i]) == 1 {
        AskedAll(a.cfg, a.table[i]);
      }
    } else {
      StaysCalled(a, ops[j], b, k);
    }
  }

  lemma CfgStays(a: View, op: Op, b: View)
    requires Stepped(a, op, b)
    ensures b.cfg == a.cfg
  {
  }

  // ---------------------------------------------------------------- a request that nobody answers

  // Operation n makes a new request, for entry i.
  ghost predicate Begins(a: View, op: Op, b: View, i: nat) {
    && op.Query? && |b.fate| == |a.fate| + 1 && WaitsFor(b.fate[|a.fate|], i)
    && i < |a.table| && a.table[i].state != Asking && i < |b.table|
  }

  // A request that begins in operation n and that nobody answers until state j, with all servers set, waits for
  // DNS_MAX_SERVERS * (1 + R * (R - 1) / 2) ticks, and is then called back without an address.  Its query goes
  // out to each server in turn, the first time at once and then 1, 2, 4, 7, ... ticks later, R times to each.
  ghost predicate InTime(trace: seq<View>, ops: seq<Op>, i: nat, n: nat, j: nat)
    requires |trace| == |ops| + 1 && n < j <= |ops|
  {
    Begins(trace[n], ops[n], trace[n + 1], i) && NobodyAnswers(trace, ops, i, n + 1, j)
    && 0 < trace[n].cfg.retries && AllServers(trace[n]) ==>
      var a, b, c, k := trace[n], trace[j], trace[n].cfg, |trace[n].fate|;
      var past, p := b.ticks - trace[n + 1].ticks, Patience(c.retries);
      && k < |b.fate|
      && if past < c.servers * p then
           && b.fate[k] == trace[n + 1].fate[k] && i < |b.table|
           && var e := b.table[i];
              && Offset(e.retries) <= past - e.serverIdx * p < Offset(e.retries + 1)
              && forall s: nat :: Queries(b.sent, i, s) - Queries(a.sent, i, s)
                   == if s < e.serverIdx then c.retries else if s == e.serverIdx then e.retries + 1 else 0
         else
           && b.fate[k] == Called(None)
           && (past == c.servers * p && ops[j - 1].Tick? ==>
                 forall s :: 0 <= s < c.servers ==> Queries(b.sent, i, s) - Queries(a.sent, i, s) == c.retries)
  }

  lemma BeginsFresh(a: View, op: Op, b: View, i: nat)
    requires Fine(a) && Fine(b) && Stepped(a, op, b) && Begins(a, op, b, i)
    ensures b.cfg == a.cfg && b.cfg.Valid() && b.ticks == a.ticks && IsFresh(b.table[i]) && GoodEntry(b.cfg, b.table[i])
    ensures Due(b.cfg, b.table[i]) == b.cfg.servers * Patience(b.cfg.retries)
    ensures forall s: nat :: Queries(b.sent, i, s) - Queries(a.sent, i, s) == Asks(b.cfg, b.table[i], s)
  {
    forall s: nat ensures Queries(b.sent, i, s) - Queries(a.sent, i, s) == Asks(b.cfg, b.table[i], s) {
      OneMoreQuery(a.sent, b.sent[|a.sent|], i, s);
    }
    BudgetIs(b.cfg.servers, b.cfg.retries);
    hide Queries;
  }

  lemma AlwaysInTime(trace: seq<View>, ops: seq<Op>, i: nat, n: nat, j: nat)
    requires IsRun(trace, ops) && n < j <= |ops|
    ensures InTime(trace, ops, i, n, j)
  {
    hide Stepped, Fine, Due, Unanswered, AllServers, Queries;
    if Begins(trace[n], ops[n], trace[n + 1], i) && NobodyAnswers(trace, ops, i, n + 1, j) {
      var k, c, b := |trace[n].fate|, trace[n].cfg, trace[j];
      BeginsFresh(trace[n], ops[n], trace[n + 1], i);
      BudgetIs(c.servers, c.retries);
      WaitsOn(trace, ops, i, k, n + 1, j);
      if b.ticks - trace[n + 1].ticks < c.servers * Patience(c.retries) {
        OnlyGood(b, i);
        SinceAsked(c, b.table[i]);
      }
    }
  }

  ghost predicate AskedInTime(trace: seq<View>, ops: seq<Op>)
    requires |trace| == |ops| + 1
  {
    forall i: nat, n: nat, j: nat :: n < j <= |ops| ==> InTime(trace, ops, i, n, j)
  }

  lemma AllAskedInTime(trace: seq<View>, ops: seq<Op>)
    requires IsRun(trace, ops)
    ensures AskedInTime(trace, ops)
  {
    hide Fine, Stepped, InTime;
    forall i: nat, n: nat, j: nat | n < j <= |ops| ensures InTime(trace, ops, i, n, j) {
      AlwaysInTime(trace, ops, i, n, j);
    }
  }

  // ---------------------------------------------------------------- runs

  function Ticks(ops: seq<Op>): nat {
    if ops == [] then 0 else Ticks(ops[..|ops| - 1]) + if ops[|ops| - 1].Tick? then 1 else 0
  }

  // The states before and after each operation.
  ghost predicate IsRun(trace: seq<View>, ops: seq<Op>) {
    && |trace| == |ops| + 1 && (forall i :: 0 <= i < |trace| ==> Fine(trace[i]))
    && forall i :: 0 <= i < |ops| ==> Stepped(trace[i], ops[i], trace[i + 1])
  }

  // What holds in every state, of the entries that are being asked.
  ghost predicate Fine(a: View) {
    && a.cfg.Valid() && |a.servers| == a.cfg.servers
    && forall t :: 0 <= t < |a.table| ==> GoodEntry(a.cfg, a.table[t]) && a.table[t].state != New
  }

  lemma IsFine(r: Resolver)
    requires r.Valid()
    ensures Fine(r.Now())
  {
  }

  lemma RunOn(trace: seq<View>, ops: seq<Op>, i: nat, now: View)
    requires i < |ops| && IsRun(trace, ops[..i]) && Stepped(trace[i], ops[i], now) && Fine(now)
    ensures IsRun(trace + [now], ops[..i + 1])
  {
    hide Stepped, Fine;
  }

  // Any run of the resolver from its start, with requests, timer ticks, packets and changes of the
  // servers in any order: every request that was accepted was called back, once, or waits in a request
  // slot for an entry that is being asked, and then it waits for less than
  // DNS_MAX_SERVERS * (1 + R * (R - 1) / 2) ticks.
  method Run(cfg: Config, ops: seq<Op>) returns (r: Resolver, ghost trace: seq<View>)
    requires cfg.Valid()
    ensures r.Valid() && r.cfg == cfg && r.ticks == Ticks(ops)
    ensures IsRun(trace, ops) && trace[|ops|] == r.Now() && trace[0].fate == [] && trace[0].ticks == 0
    ensures OnlyLater(trace) && AskedInTime(trace, ops)
    ensures forall k :: 0 <= k < |r.fate| && r.fate[k].Waiting? ==>
      && r.fate[k].slot < |r.requests| && r.requests[r.fate[k].slot] == Request(true, k, r.fate[k].entry)
      && r.fate[k].entry < |r.table| && r.table[r.fate[k].entry].state == Asking
      && r.ticks - r.fate[k].born < cfg.servers * (1 + cfg.retries * (cfg.retries - 1) / 2)
  {
    hide Stepped, Ticks, Fine, AskedInTime, OnlyLater, Resolver.Shape, Resolver.Inv;
    r := new Resolver(cfg);
    trace := Steps(r, ops, 0);
    AllAskedInTime(trace, ops);
    NoneOverdue(r);
  }

  lemma NoneOverdue(r: Resolver)
    requires r.Valid()
    ensures forall k :: 0 <= k < |r.fate| && r.fate[k].Waiting? ==>
      && r.fate[k].slot < |r.requests| && r.requests[r.fate[k].slot] == Request(true, k, r.fate[k].entry)
      && r.fate[k].entry < |r.table| && r.table[r.fate[k].entry].state == Asking
      && r.ticks - r.fate[k].born < r.cfg.servers * (1 + r.cfg.retries * (r.cfg.retries - 1) / 2)
  {
    hide Resolver.Valid;
    CfgValid(r);
    forall k | 0 <= k < |r.fate| && r.fate[k].Waiting?
      ensures r.fate[k].slot < |r.requests| && r.requests[r.fate[k].slot] == Request(true, k, r.fate[k].entry)
      ensures r.fate[k].entry < |r.table| && r.table[r.fate[k].entry].state == Asking
      ensures r.ticks - r.fate[k].born < r.cfg.servers * (1 + r.cfg.retries * (r.cfg.retries - 1) / 2)
    {
      r.WaitingRequest(k);
      r.PendingRequest(r.fate[k].slot);
      BudgetIs(r.cfg.servers, r.cfg.retries);
    }
  }

  lemma CfgValid(r: Resolver)
    requires r.Valid()
    ensures r.cfg.Valid()
  {
  }

  // The operations, one after the other.
  method Steps(r: Resolver, ops: seq<Op>, accepted: nat) returns (ghost trace: seq<View>)
    requires r.Valid() && accepted == |r.fate|
    modifies r
    ensures r.Valid() && r.ticks == old(r.ticks) + Ticks(ops)
    ensures IsRun(trace, ops) && trace[0] == old(r.Now()) && trace[|ops|] == r.Now() && OnlyLater(trace)
  {
    hide Resolver.Valid, Stepped, OnlyLater, Fine;
    var arg := accepted;
    trace := [r.Now()];
    IsFine(r);
    NotYet(r.Now());
    for i := 0 to |ops|
      invariant r.Valid() && arg == |r.fate| && r.ticks == old(r.ticks) + Ticks(ops[..i])
      invariant IsRun(trace, ops[..i]) && trace[0] == old(r.Now()) && trace[i] == r.Now() && OnlyLater(trace)
    {
      assert ops[..i + 1][..i] == ops[..i];
      arg := Step(r, ops[i], arg);
      IsFine(r);
      RunOn(trace, ops, i, r.Now());
      StillLater(trace, r.Now());
      trace := trace + [r.Now()];
    }
    assert ops[..|ops|] == ops;
  }

  // Requests that were accepted stay accepted, and none is called back a second time.
  ghost predicate OnlyLater(trace: seq<View>) {
    forall i, j :: 0 <= i <= j < |trace| ==> Later(trace[i].fate, trace[j].fate)
  }

  lemma NotYet(now: View)
    ensures OnlyLater([now])
  {
  }

  lemma StillLater(trace: seq<View>, now: View)
    requires trace != [] && OnlyLater(trace) && Later(trace[|trace| - 1].fate, now.fate)
    ensures OnlyLater(trace + [now])
  {
    forall i | 0 <= i < |trace| ensures Later(trace[i].fate, now.fate) {
      LaterTwice(trace[i].fate, trace[|trace| - 1].fate, now.fate);
    }
  }

  lemma LaterTwice(a: seq<Fate>, b: seq<Fate>, c: seq<Fate>)
    requires Later(a, b) && Later(b, c)
    ensures Later(a, c)
  {
  }
}
