// dns.c: the state of the resolver and the invariants its operations keep.
module DnsTable {
  import opened Wrappers
  import DnsName

  datatype State = Unused | New | Asking | Done

  // struct dns_table_entry, for one address type and without multicast queries
  datatype Entry = Entry(state: State, txid: nat, serverIdx: nat, tmr: nat, retries: nat, seqno: nat,
                         pcbIdx: nat, ttl: nat, ipaddr: nat, name: DnsName.Name)

  // struct dns_req_entry; found says whether the callback pointer is set
  datatype Request = Request(found: bool, arg: nat, tableIdx: nat)

  // What became of the k-th request that was accepted: it waits in a request slot for a table entry
  // since the given tick, or its callback was called with an address or with none.
  datatype Fate = Waiting(slot: nat, entry: nat, born: nat) | Called(answer: Option<nat>)

  // DNS_TABLE_SIZE (also DNS_MAX_REQUESTS), DNS_MAX_RETRIES, DNS_MAX_SERVERS, DNS_MAX_SOURCE_PORTS
  datatype Config = Config(size: nat, retries: nat, servers: nat, ports: nat) {
    predicate Valid() {
      0 < size <= 255 && 0 < retries <= 255 && 0 < servers <= 255 && 0 < ports <= 255
    }
  }

  // ---------------------------------------------------------------- transaction ids

  ghost predicate DistinctIds(table: seq<Entry>) {
    forall i, j :: 0 <= i < j < |table| && table[i].state == Asking && table[j].state == Asking ==>
      table[i].txid != table[j].txid
  }

  ghost predicate IdTaken(table: seq<Entry>, id: nat) {
    exists i :: 0 <= i < |table| && table[i].state == Asking && table[i].txid == id
  }

  ghost function TakenIds(table: seq<Entry>): set<nat> {
    if table == [] then {}
    else TakenIds(table[1..]) + if table[0].state == Asking then {table[0].txid} else {}
  }

  lemma {:induction false} TakenIdsAre(table: seq<Entry>)
    ensures |TakenIds(table)| <= |table|
    ensures forall id :: id in TakenIds(table) <==> IdTaken(table, id)
  {
    if table != [] {
      var rest := table[1..];
      TakenIdsAre(rest);
      forall id ensures id in TakenIds(table) <==> IdTaken(table, id) {
        TakenFirst(table, id);
        hide IdTaken;
      }
    }
  }

  lemma TakenFirst(table: seq<Entry>, id: nat)
    requires table != []
    ensures IdTaken(table, id) <==> IdTaken(table[1..], id) || (table[0].state == Asking && table[0].txid == id)
  {
    var rest := table[1..];
    if IdTaken(rest, id) {
      var i :| 0 <= i < |rest| && rest[i].state == Asking && rest[i].txid == id;
      assert table[i + 1] == rest[i];
    }
    if IdTaken(table, id) {
      var i :| 0 <= i < |table| && table[i].state == Asking && table[i].txid == id;
      assert 0 < i ==> rest[i - 1] == table[i];
    }
  }

  // ---------------------------------------------------------------- UDP pcbs

  // A pcb slot is open exactly if an active entry uses it.
  ghost predicate Ports(table: seq<Entry>, pcbs: seq<bool>, active: set<nat>) {
    && (forall t :: t in active ==> t < |table| && table[t].pcbIdx < |pcbs| && pcbs[table[t].pcbIdx])
    && (forall p :: 0 <= p < |pcbs| && pcbs[p] ==> PortUsed(table, active, p))
  }

  ghost predicate PortUsed(table: seq<Entry>, active: set<nat>, p: nat) {
    exists t :: t in active && t < |table| && table[t].pcbIdx == p
  }

  // Entry idx stops using its pcb, which another entry still uses, or which is closed.
  lemma PortLeft(table: seq<Entry>, pcbs: seq<bool>, active: set<nat>, idx: nat, entry: Entry, now: seq<bool>)
    requires Ports(table, pcbs, active) && idx in active
    requires now == if PortUsed(table, active - {idx}, table[idx].pcbIdx) then pcbs
                    else pcbs[table[idx].pcbIdx := false]
    ensures Ports(table[idx := entry], now, active - {idx})
  {
    var next, left := table[idx := entry], active - {idx};
    forall p | 0 <= p < |now| && now[p] ensures PortUsed(next, left, p) {
      if p == table[idx].pcbIdx {
        assert PortUsed(table, left, p);
      }
      var t :| t in active && t < |table| && table[t].pcbIdx == p && (p == table[idx].pcbIdx ==> t in left);
      assert t in left && next[t].pcbIdx == p;
    }
    forall t | t in left ensures t < |next| && next[t].pcbIdx < |now| && now[next[t].pcbIdx] {
      assert t in active && t != idx && next[t] == table[t];
      if table[t].pcbIdx == table[idx].pcbIdx {
        assert PortUsed(table, left, table[idx].pcbIdx);
      }
    }
  }

  // Entry idx starts using pcb p, which may have been opened for it.
  lemma PortJoined(table: seq<Entry>, pcbs: seq<bool>, active: set<nat>, idx: nat, entry: Entry)
    requires Ports(table, pcbs, active) && idx !in active && idx < |table|
    requires entry.pcbIdx < |pcbs|
    ensures Ports(table[idx := entry], pcbs[entry.pcbIdx := true], active + {idx})
  {
    var next, now, more := table[idx := entry], pcbs[entry.pcbIdx := true], active + {idx};
    forall p | 0 <= p < |now| && now[p] ensures PortUsed(next, more, p) {
      if p == entry.pcbIdx {
        assert idx in more && next[idx].pcbIdx == p;
      } else {
        assert PortUsed(table, active, p);
        var t :| t in active && t < |table| && table[t].pcbIdx == p;
        assert t in more && next[t].pcbIdx == p;
      }
    }
  }

  lemma PortsSame(table: seq<Entry>, next: seq<Entry>, pcbs: seq<bool>, active: set<nat>)
    requires Ports(table, pcbs, active) && |next| == |table|
    requires forall t :: t in active && t < |table| ==> next[t].pcbIdx == table[t].pcbIdx
    ensures Ports(next, pcbs, active)
  {
    forall p | 0 <= p < |pcbs| && pcbs[p] ensures PortUsed(next, active, p) {
      var t :| t in active && t < |table| && table[t].pcbIdx == p;
      assert next[t].pcbIdx == p;
    }
  }

  // ---------------------------------------------------------------- requests

  // Request slots and waiting requests are the same thing, and every one waits for an active entry.
  ghost predicate Tickets(requests: seq<Request>, fate: seq<Fate>, active: set<nat>) {
    && (forall k :: 0 <= k < |fate| && fate[k].Waiting? ==>
          fate[k].slot < |requests| && requests[fate[k].slot] == Request(true, k, fate[k].entry)
          && fate[k].entry in active)
    && (forall r :: 0 <= r < |requests| && requests[r].found ==>
          requests[r].arg < |fate| && fate[requests[r].arg].Waiting? && fate[requests[r].arg].slot == r)
  }

  // Accepted requests stay accepted, and a request whose callback was called stays as it is.
  ghost predicate Later(was: seq<Fate>, now: seq<Fate>) {
    |was| <= |now| && forall k :: 0 <= k < |was| ==> now[k] == was[k] || (was[k].Waiting? && now[k].Called?)
  }

  // The requests waiting for entry idx are answered, the others stay.
  ghost predicate Answered(was: seq<Fate>, now: seq<Fate>, idx: nat, answer: Option<nat>) {
    |was| == |now| && forall k :: 0 <= k < |was| ==>
      now[k] == if was[k].Waiting? && was[k].entry == idx then Called(answer) else was[k]
  }

  // ---------------------------------------------------------------- time

  // The waits before each retry that is still to come: retries + 1, ..., R - 1.
  function Waits(retries: nat, max: nat): nat
    decreases max - retries
  {
    if retries + 1 >= max then 0 else retries + 1 + Waits(retries + 1, max)
  }

  // The ticks that asking so many servers can take.
  function Budget(servers: nat, max: nat): nat {
    if servers == 0 then 0 else 1 + Waits(0, max) + Budget(servers - 1, max)
  }

  lemma {:induction false} WaitsSum(retries: nat, max: nat)
    requires retries < max
    ensures 2 * Waits(retries, max) == max * (max - 1) - retries * (retries + 1)
    decreases max - retries
  {
    if retries + 1 < max {
      WaitsSum(retries + 1, max);
      assert (retries + 1) * (retries + 2) == retries * (retries + 1) + 2 * (retries + 1);
    } else {
      assert max * (max - 1) == (retries + 1) * retries;
    }
  }

  // The bound in closed form.
  lemma {:induction false} BudgetIs(servers: nat, max: nat)
    requires 0 < max
    ensures Budget(servers, max) == servers * (1 + max * (max - 1) / 2)
  {
    if servers > 0 {
      BudgetIs(servers - 1, max);
      WaitsSum(0, max);
      var c := 1 + max * (max - 1) / 2;
      assert (servers - 1) * c + c == servers * c;
    }
  }

  // How many ticks the entry can still be outstanding.
  function Due(c: Config, e: Entry): nat {
    match e.state
    case Asking => Budget(if e.serverIdx + 1 <= c.servers then c.servers - 1 - e.serverIdx else 0, c.retries)
                   + e.tmr + Waits(e.retries, c.retries)
    case New => Budget(c.servers, c.retries)
    case _ => 0
  }

  // Entries from swept on have not seen the current tick yet.
  ghost predicate OnTime(c: Config, table: seq<Entry>, fate: seq<Fate>, ticks: nat, swept: nat) {
    forall k :: 0 <= k < |fate| && fate[k].Waiting? ==>
      && fate[k].entry < |table| && fate[k].born <= ticks
      && Due(c, table[fate[k].entry]) + ticks - fate[k].born
           <= Budget(c.servers, c.retries) + if swept <= fate[k].entry then 1 else 0
  }

  // ---------------------------------------------------------------- entries

  ghost predicate GoodEntry(c: Config, e: Entry) {
    e.state == Asking ==>
      && e.txid <= 0xFFFF && e.serverIdx < c.servers && e.retries < c.retries
      && 0 < e.tmr <= if e.retries == 0 then 1 else e.retries
  }

  lemma {:induction false} WaitsLeft(retries: nat, max: nat)
    requires retries < max
    ensures retries + Waits(retries, max) <= Waits(0, max)
  {
    if retries > 0 {
      WaitsLeft(retries - 1, max);
    }
  }

  lemma {:induction false} BudgetGrows(a: nat, b: nat, max: nat)
    requires a <= b
    ensures Budget(a, max) <= Budget(b, max)
  {
    if a < b {
      BudgetGrows(a, b - 1, max);
    }
  }

  // A good entry still has a tick to live, and no more than a fresh one.
  lemma DueBounds(c: Config, e: Entry)
    requires GoodEntry(c, e) && e.state == Asking
    ensures 0 < Due(c, e) <= Budget(c.servers, c.retries)
  {
    WaitsLeft(e.retries, c.retries);
    BudgetGrows(c.servers - e.serverIdx, c.servers, c.retries);
  }

  lemma FreshDue(c: Config, was: Entry, e: Entry)
    requires c.Valid() && was.state == New && e.state == Asking && e.serverIdx == 0 && e.tmr == 1 && e.retries == 0
    ensures Due(c, e) == Budget(c.servers, c.retries) == Due(c, was)
  {
  }

  // ---------------------------------------------------------------- a new request

  lemma IdsShrink(table: seq<Entry>, i: nat, e: Entry)
    requires DistinctIds(table) && i < |table| && e.state != Asking
    ensures DistinctIds(table[i := e])
  {
  }

  lemma TicketAdded(requests: seq<Request>, fate: seq<Fate>, active: set<nat>, r: nat, w: Fate)
    requires Tickets(requests, fate, active) && r < |requests| && !requests[r].found
    requires w.Waiting? && w.slot == r
    ensures Tickets(requests[r := Request(true, |fate|, w.entry)], fate + [w], active + {w.entry})
  {
  }

  // Nobody waits for an entry that is not active.
  lemma OnlyNewAnswered(requests: seq<Request>, fate: seq<Fate>, active: set<nat>, w: Fate, next: seq<Fate>)
    requires Tickets(requests, fate, active) && w.Waiting? && w.entry !in active
    requires Answered(fate + [w], next, w.entry, None)
    ensures next == fate + [Called(None)]
  {
  }

  lemma NoTicket(requests: seq<Request>, fate: seq<Fate>, active: set<nat>, r: nat, q: Request)
    requires Tickets(requests, fate, active) && r < |requests| && !requests[r].found && !q.found
    ensures Tickets(requests[r := q], fate, active)
  {
  }

  lemma TimeSame(c: Config, table: seq<Entry>, fate: seq<Fate>, ticks: nat, swept: nat, active: set<nat>,
                 requests: seq<Request>, i: nat, e: Entry)
    requires OnTime(c, table, fate, ticks, swept) && Tickets(requests, fate, active)
    requires i < |table| && i !in active
    ensures OnTime(c, table[i := e], fate, ticks, swept)
  {
    hide Due;
  }

  lemma TimeStarts(c: Config, table: seq<Entry>, fate: seq<Fate>, ticks: nat, swept: nat, active: set<nat>,
                   requests: seq<Request>, e: Entry, w: Fate)
    requires OnTime(c, table, fate, ticks, swept) && Tickets(requests, fate, active)
    requires w.Waiting? && w.entry < |table| && w.entry !in active && w.born == ticks && e.state == New
    ensures OnTime(c, table[w.entry := e], fate + [w], ticks, swept)
  {
    TimeSame(c, table, fate, ticks, swept, active, requests, w.entry, e);
  }

  // What holds of every entry but x: an entry is active exactly if it is being asked.
  ghost predicate Synced(c: Config, table: seq<Entry>, active: set<nat>, x: int) {
    forall t :: 0 <= t < |table| && t != x ==>
      GoodEntry(c, table[t]) && table[t].state != New && (t in active <==> table[t].state == Asking)
  }

  // The requests waiting for entry i are told that there is no address, and the entry is flushed.
  ghost predicate GivenUp(was: seq<Entry>, now: seq<Entry>, fate: seq<Fate>, next: seq<Fate>, i: nat) {
    && |now| == |was| && i < |was| && now[i].state == Unused
    && (forall t :: 0 <= t < |was| && t != i ==> now[t] == was[t])
    && Answered(fate, next, i, None)
  }

  // dns_backupserver_available
  predicate BackupServerAvailable(servers: seq<nat>, e: Entry) {
    e.serverIdx + 1 < |servers| && servers[e.serverIdx + 1] != 0
  }

  // The next timeout is the last one for this server.
  predicate LastTry(c: Config, e: Entry) {
    e.tmr == 1 && e.retries + 1 == c.retries
  }

  // The entry is given up at the next tick: its time is over and there is no other server, or it is to ask a
  // server that is not there any more.
  predicate Hopeless(c: Config, servers: seq<nat>, e: Entry) {
    && e.state == Asking && e.tmr == 1
    && if e.retries + 1 == c.retries then !BackupServerAvailable(servers, e)
       else e.serverIdx >= |servers| || servers[e.serverIdx] == 0
  }

  // The request waits for such an entry.
  predicate LosesHope(c: Config, servers: seq<nat>, table: seq<Entry>, f: Fate) {
    f.Waiting? && f.entry < |table| && Hopeless(c, servers, table[f.entry])
  }

  // At the next tick the entry asks server s.
  predicate AsksAgain(c: Config, servers: seq<nat>, e: Entry, s: nat) {
    && e.state == Asking && e.tmr == 1 && !Hopeless(c, servers, e)
    && s == e.serverIdx + if e.retries + 1 == c.retries then 1 else 0
  }

  // An entry for which the first server has just been asked.
  predicate IsFresh(e: Entry) {
    e.state == Asking && e.serverIdx == 0 && e.tmr == 1 && e.retries == 0
  }

  // A query that went out: for which entry, to which server and its address, with which id and name
  datatype Sent = Sent(entry: nat, serverIdx: nat, server: nat, id: nat, name: DnsName.Name)

  // How often entry t asked server s.
  function Queries(sent: seq<Sent>, t: nat, s: nat): nat {
    if sent == [] then 0
    else
      var last := sent[|sent| - 1];
      Queries(sent[..|sent| - 1], t, s) + if last.entry == t && last.serverIdx == s then 1 else 0
  }

  lemma OneMoreQuery(sent: seq<Sent>, x: Sent, t: nat, s: nat)
    ensures Queries(sent + [x], t, s) == Queries(sent, t, s) + if x.entry == t && x.serverIdx == s then 1 else 0
  {
    assert (sent + [x])[..|sent|] == sent;
  }

  // A tick passes for an entry that is asking.
  ghost predicate Ticked(c: Config, was: Entry, now: Entry) {
    && now == was.(serverIdx := now.serverIdx, tmr := now.tmr, retries := now.retries)
    && GoodEntry(c, now) && Due(c, now) + 1 == Due(c, was)
  }

  // What a timer tick does to an entry: while it is asking, a tick less is left, the query goes out again
  // after one tick more each time, and at the last retry to the next server.
  ghost predicate Aged(c: Config, servers: seq<nat>, was: Entry, now: Entry) {
    match was.state
    case Asking =>
      if Hopeless(c, servers, was) then now.state == Unused
      else
        && Ticked(c, was, now)
        && if 1 < was.tmr then now == was.(tmr := was.tmr - 1)
           else
             && now.serverIdx == was.serverIdx + (if LastTry(c, was) then 1 else 0)
             && now.retries == if LastTry(c, was) then 0 else was.retries + 1
    case Done => if was.ttl <= 1 then now.state == Unused else now == was.(ttl := was.ttl - 1)
    case _ => was.state == New || now == was
  }

  predicate SameName(a: seq<byte>, b: seq<byte>) {
    |a| == |b| && forall i :: 0 <= i < |a| ==> DnsName.Lower(a[i]) == DnsName.Lower(b[i])
  }
}
