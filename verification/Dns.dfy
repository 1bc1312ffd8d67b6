// dns.c: the resolver, with LWIP_DNS_SECURE_NO_MULTIPLE_OUTSTANDING and LWIP_DNS_SECURE_RAND_SRC_PORT.
module Dns {
  import opened Wrappers
  import opened DnsAnswer
  import opened DnsTable
  import DnsName

  const DNS_MAX_TTL: nat := 604800

  // What can happen to the resolver.
  datatype Op =
    | Query(name: seq<byte>, created: bool, drawn: nat)
    | Tick
    | Datagram(p: Packet, sender: nat, behind: nat -> byte)
    | Server(num: nat, addr: nat)

  // ---------------------------------------------------------------- what an operation does

  // What the operations change and depend on, the draws of random ports and ids left aside.
  datatype View = View(cfg: Config, table: seq<Entry>, requests: seq<Request>, pcbs: seq<bool>, servers: seq<nat>,
                       seqno: nat, fate: seq<Fate>, ticks: nat, sent: seq<Sent>)

  ghost predicate RequestsFull(requests: seq<Request>) {
    forall r :: 0 <= r < |requests| ==> requests[r].found
  }

  lemma SameAsStored(name: seq<byte>)
    ensures SameName(Stored(name), Stored(name))
  {
  }

  // How long ago an entry was filled, in 8 bits.
  function Age(seqno: nat, e: Entry): nat {
    (seqno - e.seqno) % 256
  }

  // So many entries were filled since, modulo 256.
  lemma AgeCounts(seqno: nat, e: Entry, filled: nat)
    requires e.seqno < 256 && seqno == (e.seqno + filled) % 256
    ensures Age(seqno, e) == filled % 256
  {
  }

  // The first unused entry, or without one the oldest cached one.
  ghost predicate BestEntry(table: seq<Entry>, seqno: nat, i: nat) {
    && i < |table|
    && if table[i].state == Unused then forall t :: 0 <= t < i ==> table[t].state != Unused
       else
         && table[i].state == Done && 0 < Age(seqno, table[i])
         && forall t :: 0 <= t < |table| ==>
              table[t].state != Unused && (table[t].state == Done ==> Age(seqno, table[t]) <= Age(seqno, table[i]))
  }

  ghost predicate NoEntryUsable(table: seq<Entry>, seqno: nat) {
    forall t :: 0 <= t < |table| ==> table[t].state != Unused && (table[t].state == Done ==> Age(seqno, table[t]) == 0)
  }

  // An entry that is being asked for name.
  ghost predicate IsDuplicate(table: seq<Entry>, t: nat, name: seq<byte>) {
    t < |table| && table[t].state == Asking && SameName(name, table[t].name)
  }

  // The name as it is copied to an entry.
  function Stored(name: seq<byte>): DnsName.Name {
    name[..Min(|name|, DnsName.DNS_MAX_NAME_LENGTH - 1)]
  }

  // Entry t asked with the id that packet p carries.
  predicate Matches(table: seq<Entry>, t: nat, p: Packet) {
    && DnsName.SIZEOF_DNS_HDR + DnsName.SIZEOF_DNS_QUERY <= |p|
    && t < |table| && table[t].state == Asking && table[t].txid == Short(p, 0)
  }

  // The query of an entry goes out to its server.
  ghost predicate Sends(was: seq<Sent>, now: seq<Sent>, t: nat, e: Entry, servers: seq<nat>) {
    && e.serverIdx < |servers| && servers[e.serverIdx] != 0
    && now == was + [Sent(t, e.serverIdx, servers[e.serverIdx], e.txid, e.name)]
  }

  // dns_enqueue: the request is refused for want of a request slot, an entry or a pcb, or it is accepted
  // and waits for an entry that is being asked for its name, which it joins or for which the first server is
  // asked now, or it is answered at once without a server.
  ghost predicate Queried(a: View, name: seq<byte>, created: bool, b: View) {
    && b.ticks == a.ticks && b.servers == a.servers && |b.table| == |a.table|
    && (forall t :: 0 <= t < |a.table| && a.table[t].state == Asking ==> b.table[t] == a.table[t])
    && if b.fate == a.fate then
         b.sent == a.sent &&
         (|| RequestsFull(a.requests) || NoEntryUsable(a.table, a.seqno)
          || (!created && forall q :: 0 <= q < |a.pcbs| ==> !a.pcbs[q]))
       else
         var k := |a.fate|;
         && |b.fate| == k + 1 && b.fate[..k] == a.fate
         && match b.fate[k]
            case Waiting(_, i, born) =>
              && IsDuplicate(b.table, i, Stored(name)) && born == b.ticks && i < |a.table|
              && if a.table[i].state == Asking then b.table == a.table && b.sent == a.sent
                 else
                   && BestEntry(a.table, a.seqno, i) && IsFresh(b.table[i]) && b.table[i].name == Stored(name)
                   && b.table[i].seqno == a.seqno && b.seqno == (a.seqno + 1) % 256
                   && Sends(a.sent, b.sent, i, b.table[i], a.servers)
            case Called(answer) => answer.None? && 0 < |b.servers| && b.servers[0] == 0 && b.sent == a.sent
  }

  // The first server is asked for entry i, if there is one.
  ghost predicate Started(a: View, i: nat, b: View)
    requires i < |a.table| == |b.table|
  {
    if |a.servers| == 0 || a.servers[0] == 0 then GivenUp(a.table, b.table, a.fate, b.fate, i) && b.sent == a.sent
    else
      && IsFresh(b.table[i]) && b.table[i].name == a.table[i].name && b.table[i].seqno == a.table[i].seqno
      && b.fate == a.fate && Sends(a.sent, b.sent, i, b.table[i], a.servers)
  }

  // The entry is given up as its time is over, or as its server is not valid any more; otherwise a tick
  // passes for it, and its query may go out.
  ghost predicate Asked(a: View, i: nat, b: View)
    requires i < |a.table| == |b.table|
  {
    if Hopeless(a.cfg, a.servers, a.table[i]) then GivenUp(a.table, b.table, a.fate, b.fate, i) && b.sent == a.sent
    else
      && b.fate == a.fate && Aged(a.cfg, a.servers, a.table[i], b.table[i])
      && if a.table[i].tmr == 1 then Sends(a.sent, b.sent, i, b.table[i], a.servers) else b.sent == a.sent
  }

  // What dns_check_entry does to its entry.
  ghost predicate Checked(a: View, i: nat, b: View)
    requires i < |a.table| == |b.table|
  {
    match a.table[i].state
    case New => Started(a, i, b)
    case Asking => Asked(a, i, b)
    case Done => b.fate == a.fate && b.sent == a.sent && Aged(a.cfg, a.servers, a.table[i], b.table[i])
    case Unused => b.fate == a.fate && b.sent == a.sent && b.table[i] == a.table[i]
  }

  // What the checks of the first i entries do.
  ghost predicate SweptTo(a: View, b: View, i: nat) {
    && b.cfg == a.cfg && b.ticks == a.ticks && b.servers == a.servers && |b.fate| == |a.fate|
    && |b.table| == |a.table|
    && (forall t :: 0 <= t < |a.table| ==>
          if t < i then Aged(a.cfg, a.servers, a.table[t], b.table[t]) else b.table[t] == a.table[t])
    && (forall k :: 0 <= k < |a.fate| ==>
          b.fate[k] == if LosesHope(a.cfg, a.servers, a.table, a.fate[k]) && a.fate[k].entry < i then Called(None)
                       else a.fate[k])
    && forall t, s :: 0 <= t < |a.table| ==>
         Queries(b.sent, t, s)
         == Queries(a.sent, t, s) + if t < i && AsksAgain(a.cfg, a.servers, a.table[t], s) then 1 else 0
  }

  lemma SweptNext(a: View, m: View, b: View, i: nat)
    requires SweptTo(a, m, i) && i < |a.table| == |b.table| && Checked(m, i, b) && a.table[i].state != New
    requires a.table[i].state == Asking ==> 0 < a.table[i].tmr
    requires b.cfg == m.cfg && b.ticks == m.ticks && b.servers == m.servers && |b.fate| == |m.fate|
    requires forall t :: 0 <= t < |m.table| && t != i ==> b.table[t] == m.table[t]
    ensures SweptTo(a, b, i + 1)
  {
    hide Due, GoodEntry, Queries;
    forall t: nat, s: nat | t < |a.table|
      ensures Queries(b.sent, t, s)
           == Queries(m.sent, t, s) + if t == i && AsksAgain(a.cfg, a.servers, a.table[t], s) then 1 else 0
    {
      if b.sent != m.sent {
        OneMoreQuery(m.sent, b.sent[|m.sent|], t, s);
      }
    }
  }

  // dns_tmr: every entry has aged by a tick.
  ghost predicate TickPassed(a: View, b: View) {
    && b.ticks == a.ticks + 1 && b.servers == a.servers && Later(a.fate, b.fate) && |b.fate| == |a.fate|
    && |b.table| == |a.table|
    && (forall t :: 0 <= t < |a.table| ==> Aged(a.cfg, a.servers, a.table[t], b.table[t]))
    && (forall k :: 0 <= k < |a.fate| ==>
          b.fate[k] == if LosesHope(a.cfg, a.servers, a.table, a.fate[k]) then Called(None) else a.fate[k])
    && forall t, s :: 0 <= t < |a.table| ==>
         Queries(b.sent, t, s) == Queries(a.sent, t, s) + if AsksAgain(a.cfg, a.servers, a.table[t], s) then 1 else 0
  }

  // What dns_recv makes of a packet that carries the id of entry i.
  ghost predicate Received(a: View, i: nat, v: Verdict, b: View)
    requires i < |a.table| == |b.table|
  {
    var was, now := a.table[i], b.table[i];
    match v
    case Ignore => b.fate == a.fate && now == was && b.sent == a.sent
    case Address(ip, ttl) =>
      && b.sent == a.sent && Answered(a.fate, b.fate, i, Some(ip))
      && now.state == (if ttl == 0 then Unused else Done) && now.ipaddr == ip && now.name == was.name
      && now.ttl == Min(ttl, DNS_MAX_TTL)
    case NoAddress => GivenUp(a.table, b.table, a.fate, b.fate, i) && b.sent == a.sent
    case Failure =>
      if BackupServerAvailable(a.servers, was) then
        && b.fate == a.fate && now == was.(serverIdx := was.serverIdx + 1, tmr := 1, retries := 0)
        && Sends(a.sent, b.sent, i, now, a.servers) && Due(a.cfg, now) < Due(a.cfg, was)
      else GivenUp(a.table, b.table, a.fate, b.fate, i) && b.sent == a.sent
  }

  // What the checks of dns_recv make of a packet for entry t.
  ghost function Judged(a: View, t: nat, p: Packet, sender: nat, behind: nat -> byte): Verdict
    requires Matches(a.table, t, p) && a.table[t].serverIdx < |a.servers|
  {
    Examined(p, NameInTable(a.table[t].name, behind), sender == a.servers[a.table[t].serverIdx])
  }

  // dns_recv: at most the entry that asked with the id of the packet is affected, as the checks decide.
  ghost predicate Got(a: View, p: Packet, sender: nat, behind: nat -> byte, b: View) {
    && b.ticks == a.ticks && b.servers == a.servers && |b.table| == |a.table| && |b.fate| == |a.fate|
    && (forall t :: 0 <= t < |a.table| && !Matches(a.table, t, p) ==> b.table[t] == a.table[t])
    && ((forall t :: 0 <= t < |a.table| ==> !Matches(a.table, t, p)) ==> b.fate == a.fate && b.sent == a.sent)
    && forall t :: 0 <= t < |a.table| && Matches(a.table, t, p) ==>
         a.table[t].serverIdx < |a.servers| && Received(a, t, Judged(a, t, p, sender, behind), b)
  }

  lemma OneAffected(a: View, i: nat, p: Packet, sender: nat, behind: nat -> byte, b: View)
    requires Matches(a.table, i, p) && a.table[i].serverIdx < |a.servers|
    requires forall t :: 0 <= t < |a.table| && Matches(a.table, t, p) ==> t == i
    requires b.ticks == a.ticks && b.servers == a.servers && |b.table| == |a.table| && |b.fate| == |a.fate|
    requires forall t :: 0 <= t < |a.table| && t != i ==> b.table[t] == a.table[t]
    requires Received(a, i, Judged(a, i, p, sender, behind), b)
    ensures Got(a, p, sender, behind, b)
  {
    hide Received, Judged;
  }

  // dns_setserver; the any address removes a server.
  function ServerSet(a: View, num: nat, addr: nat): View {
    if num < |a.servers| then a.(servers := a.servers[num := addr]) else a
  }

  ghost predicate Stepped(a: View, op: Op, b: View) {
    && b.cfg == a.cfg
    && match op
       case Query(name, created, _) => Queried(a, name, created, b)
       case Tick => TickPassed(a, b)
       case Datagram(p, sender, behind) => Got(a, p, sender, behind, b)
       case Server(num, addr) => b == ServerSet(a, num, addr)
  }

  class Resolver {
    const cfg: Config
    var table: seq<Entry>           // dns_table
    var requests: seq<Request>      // dns_requests
    var pcbs: seq<bool>             // dns_pcbs: which slots hold an open pcb
    var servers: seq<nat>           // dns_servers: 0 is the any address
    var txid: nat                   // dns_txid
    var lastPcb: nat                // dns_last_pcb_idx
    var seqno: nat                  // dns_seqno
    ghost var active: set<nat>      // the entries that hold a pcb
    ghost var fate: seq<Fate>       // what became of every accepted request
    ghost var ticks: nat            // how many timer ticks there were
    ghost var swept: nat            // how many entries have seen the latest of them
    ghost var sent: seq<Sent>       // the queries that went out

    ghost predicate Shape()
      reads `table, `requests, `pcbs, `servers, `txid, `lastPcb, `seqno
    {
      && cfg.Valid()
      && |table| == |requests| == cfg.size && |pcbs| == cfg.ports && |servers| == cfg.servers
      && txid <= 0xFFFF && lastPcb < cfg.ports && seqno < 256
    }

    ghost predicate Inv()
      reads this
    {
      && Shape()
      && DistinctIds(table)
      && Ports(table, pcbs, active)
      && Tickets(requests, fate, active)
      && OnTime(cfg, table, fate, ticks, swept)
    }

    // What holds between operations.
    ghost predicate Valid()
      reads this
    {
      Inv() && Synced(cfg, table, active, -1) && swept == cfg.size
    }

    ghost function Now(): View
      reads this
    {
      View(cfg, table, requests, pcbs, servers, seqno, fate, ticks, sent)
    }

    // A pending request points at an entry that is being asked, and is not overdue.
    lemma PendingRequest(r: nat)
      requires Valid() && r < |requests| && requests[r].found
      ensures requests[r].tableIdx < |table| && table[requests[r].tableIdx].state == Asking
      ensures requests[r].arg < |fate| && fate[requests[r].arg].Waiting?
      ensures ticks - fate[requests[r].arg].born < Budget(cfg.servers, cfg.retries)
    {
      var k := requests[r].arg;
      DueBounds(cfg, table[fate[k].entry]);
    }

    // Every accepted request that was not answered yet is pending, and not overdue.
    lemma WaitingRequest(k: nat)
      requires Valid() && k < |fate| && fate[k].Waiting?
      ensures fate[k].slot < |requests| && requests[fate[k].slot] == Request(true, k, fate[k].entry)
      ensures ticks - fate[k].born < Budget(cfg.servers, cfg.retries)
    {
      PendingRequest(fate[k].slot);
    }

    // A pcb is open exactly if an entry that is being asked uses it.
    lemma PcbOpen(p: nat)
      requires Valid() && p < |pcbs|
      ensures pcbs[p] <==> exists t :: 0 <= t < |table| && table[t].state == Asking && table[t].pcbIdx == p
    {
      if pcbs[p] {
        assert PortUsed(table, active, p);
      }
    }

    // No two entries that are being asked can match the id of a packet.
    lemma OneMatch(i: nat, j: nat)
      requires Valid() && i < |table| && j < |table| && table[i].state == table[j].state == Asking
      ensures table[i].txid == table[j].txid ==> i == j
    {
    }

    constructor (cfg: Config)
      requires cfg.Valid()
      ensures Valid() && this.cfg == cfg && fate == [] && ticks == 0 && sent == []
      ensures forall p :: 0 <= p < |pcbs| ==> !pcbs[p]
    {
      this.cfg := cfg;
      table := seq(cfg.size, i => Entry(Unused, 0, 0, 0, 0, 0, 0, 0, 0, []));
      requests := seq(cfg.size, i => Request(false, 0, 0));
      pcbs := seq(cfg.ports, i => false);
      servers := seq(cfg.servers, i => 0);
      txid, lastPcb, seqno := 0, 0, 0;
      active, fate, ticks, swept, sent := {}, [], 0, cfg.size, [];
    }

    // dns_setserver; the any address removes a server.
    method SetServer(num: nat, addr: nat)
      requires Valid()
      modifies `servers
      ensures Valid() && Now() == ServerSet(old(Now()), num, addr)
    {
      if num < cfg.servers {
        servers := servers[num := addr];
      }
    }

    // ---------------------------------------------------------------- dns_create_txid

    // The inner loop of dns_create_txid.
    method InUse(id: nat) returns (used: bool)
      requires Shape()
      ensures used <==> IdTaken(table, id)
    {
      for i := 0 to cfg.size
        invariant forall j :: 0 <= j < i ==> !(table[j].state == Asking && table[j].txid == id)
      {
        if table[i].state == Asking && table[i].txid == id {
          return true;
        }
      }
      return false;
    }

    // dns_create_txid with the counter as generator.  tries counts how often an id was drawn.
    method CreateTxid() returns (id: nat, ghost tries: nat)
      requires Shape()
      modifies `txid
      ensures Shape() && id <= 0xFFFF && !IdTaken(table, id)
      ensures 1 <= tries <= cfg.size + 1 && txid == id == Drawn(old(txid), tries)
    {
      hide Tried, IdTaken, Drawn;
      ghost var tried := NoTry(table, txid);
      id, tries := txid, 0;
      var again := true;
      while again
        invariant Shape() && table == old(table) && txid == Drawn(old(txid), tries)
        invariant again ==> Tried(tried, table, old(txid), tries) && tries <= cfg.size
        invariant !again ==> 0 < tries <= cfg.size + 1 && id == txid && !IdTaken(table, id)
        decreases again, cfg.size - tries
      {
        NextDrawn(old(txid), tries);
        txid := (txid + 1) % 0x10000;
        tries := tries + 1;
        id := txid;
        again := InUse(id);
        if again {
          tried := AnotherTry(tried, table, old(txid), tries - 1, id);
        }
      }
    }

    // ---------------------------------------------------------------- dns_alloc_pcb

    // Going round from the slot behind last, slot q comes before slot p.
    static predicate Before(last: nat, q: int, p: nat) {
      if last < p then last < q < p else q < p || last < q
    }

    // dns_alloc_random_port: created says whether a new pcb could be created and bound; drawn is the
    // number of ids drawn for its port.
    method AllocPcb(created: bool, drawn: nat) returns (p: nat)
      requires Shape()
      modifies `pcbs, `lastPcb, `txid
      ensures Shape()
      ensures p < cfg.ports ==> pcbs == old(pcbs)[p := true] && lastPcb == p
      ensures p < cfg.ports && !old(pcbs)[p] ==> created && forall q :: 0 <= q < p ==> old(pcbs)[q]
      ensures p < cfg.ports && old(pcbs)[p] ==>
                && (!created || forall q :: 0 <= q < cfg.ports ==> old(pcbs)[q])
                && forall q :: 0 <= q < cfg.ports && Before(old(lastPcb), q, p) ==> !old(pcbs)[q]
      ensures txid == if forall q :: 0 <= q < cfg.ports ==> old(pcbs)[q] then old(txid)
                      else (old(txid) + drawn) % 0x10000
      ensures p >= cfg.ports ==>
                p == cfg.ports && pcbs == old(pcbs) && !created && forall q :: 0 <= q < cfg.ports ==> !pcbs[q]
    {
      var i := 0;
      while i < cfg.ports && pcbs[i]
        invariant 0 <= i <= cfg.ports
        invariant forall q :: 0 <= q < i ==> pcbs[q]
      {
        i := i + 1;
      }
      if i < cfg.ports {
        txid := (txid + drawn) % 0x10000;
        if created {
          pcbs := pcbs[i := true];
          lastPcb := i;
          return i;
        }
      }
      assert i == cfg.ports ==> pcbs[0];
      p := NextOpen();
      assert p == cfg.ports ==> !pcbs[0];
    }

    // The second loop: an already open pcb is used, starting behind the latest.
    method NextOpen() returns (p: nat)
      requires Shape()
      modifies `lastPcb
      ensures Shape() && p <= cfg.ports && (p < cfg.ports ==> pcbs[p] && lastPcb == p)
      ensures p == cfg.ports ==> forall q :: 0 <= q < cfg.ports ==> !pcbs[q]
      ensures p < cfg.ports ==> forall q :: 0 <= q < cfg.ports && Before(old(lastPcb), q, p) ==> !pcbs[q]
    {
      var i, idx := 0, lastPcb + 1;
      while i < cfg.ports
        invariant 0 <= i <= cfg.ports && 0 < idx <= cfg.ports && lastPcb == old(lastPcb)
        invariant idx == if lastPcb + 1 + i <= cfg.ports then lastPcb + 1 + i else lastPcb + 1 + i - cfg.ports
        invariant forall q :: lastPcb < q < (if lastPcb + 1 + i <= cfg.ports then idx else cfg.ports) ==> !pcbs[q]
        invariant lastPcb + 1 + i > cfg.ports ==> forall q :: 0 <= q < idx ==> !pcbs[q]
      {
        if idx >= cfg.ports {
          idx := 0;
        }
        if pcbs[idx] {
          lastPcb := idx;
          return idx;
        }
        i, idx := i + 1, idx + 1;
      }
      return cfg.ports;
    }

    // ---------------------------------------------------------------- dns_call_found

    // The callback of a request; it is never called for a request that was called back before.
    method RunCallback(arg: nat, answer: Option<nat>)
      requires arg < |fate| && fate[arg].Waiting?
      modifies `fate
      ensures fate == old(fate)[arg := Called(answer)]
    {
      fate := fate[arg := Called(answer)];
    }

    // The loop over the requests.
    method AnswerAll(idx: nat, answer: Option<nat>)
      requires Tickets(requests, fate, active)
      modifies `requests, `fate
      ensures |requests| == |old(requests)| && Tickets(requests, fate, active - {idx})
      ensures Answered(old(fate), fate, idx, answer)
    {
      for i := 0 to |requests|
        invariant |requests| == |old(requests)| && Tickets(requests, fate, active)
        invariant |fate| == |old(fate)|
        invariant forall k :: 0 <= k < |fate| ==>
                    fate[k] == if old(fate)[k].Waiting? && old(fate)[k].entry == idx && old(fate)[k].slot < i
                               then Called(answer) else old(fate)[k]
      {
        if requests[i].found && requests[i].tableIdx == idx {
          RunCallback(requests[i].arg, answer);
          requests := requests[i := requests[i].(found := false)];
        }
      }
    }

    // The pcb of entry idx is closed unless another entry that is being asked uses it.
    method ClosePort(idx: nat)
      requires Shape() && Ports(table, pcbs, active) && idx in active && Synced(cfg, table, active, idx)
      modifies `table, `pcbs, `active
      ensures Shape() && Ports(table, pcbs, active) && active == old(active) - {idx}
      ensures table == old(table)[idx := old(table)[idx].(pcbIdx := cfg.ports)]
    {
      assert idx < |table| && table[idx].pcbIdx < cfg.ports;
      ghost var p := table[idx].pcbIdx;
      ghost var others := active - {idx};
      var i, shared := 0, false;
      while i < cfg.size && !shared
        invariant 0 <= i <= cfg.size && pcbs == old(pcbs) && active == old(active)
        invariant shared ==> PortUsed(old(table), others, p)
        invariant !shared ==> table == old(table)
        invariant shared ==> table == old(table)[idx := old(table)[idx].(pcbIdx := cfg.ports)]
        invariant !shared ==> forall t :: 0 <= t < i && t in others ==> table[t].pcbIdx != p
      {
        if i != idx && table[i].state == Asking && table[i].pcbIdx == table[idx].pcbIdx {
          shared := true;
          table := table[idx := table[idx].(pcbIdx := cfg.ports)];
        }
        i := i + 1;
      }
      if table[idx].pcbIdx < cfg.ports {
        pcbs := pcbs[table[idx].pcbIdx := false];
        table := table[idx := table[idx].(pcbIdx := cfg.ports)];
      }
      active := others;
      PortLeft(old(table), old(pcbs), old(active), idx, table[idx], pcbs);
    }

    // dns_call_found
    method CallFound(idx: nat, answer: Option<nat>)
      requires Inv() && idx in active && Synced(cfg, table, active, idx)
      modifies `table, `requests, `pcbs, `active, `fate
      ensures Inv() && Synced(cfg, table, active, idx) && active == old(active) - {idx}
      ensures table == old(table)[idx := old(table)[idx].(pcbIdx := cfg.ports)]
      ensures Answered(old(fate), fate, idx, answer)
    {
      AnswerAll(idx, answer);
      ClosePort(idx);
    }

    // ---------------------------------------------------------------- dns_send

    // Entry i is written in place; its request is no more overdue than before.
    method Update(i: nat, e: Entry)
      requires Inv() && i < cfg.size && e.pcbIdx == table[i].pcbIdx && Due(cfg, e) <= Due(cfg, table[i])
      requires e.state == Asking ==>
                 (table[i].state == Asking && table[i].txid == e.txid) || !IdTaken(table, e.txid)
      modifies `table
      ensures Inv() && table == old(table)[i := e]
    {
      hide Due;
      PortsSame(table, table[i := e], pcbs, active);
      table := table[i := e];
    }

    // The callback is told that there is no address, and the entry is flushed.
    method GiveUp(idx: nat)
      requires Inv() && idx in active && Synced(cfg, table, active, idx)
      modifies `table, `requests, `pcbs, `active, `fate
      ensures Inv() && Synced(cfg, table, active, -1)
      ensures GivenUp(old(table), table, old(fate), fate, idx)
    {
      CallFound(idx, None);
      ActiveInside(old(active), idx);
      Update(idx, table[idx].(state := Unused));
    }

    lemma ActiveInside(was: set<nat>, idx: nat)
      requires Inv() && idx < |table|
      ensures forall t :: t in active ==> t < |table|
    {
    }

    // udp_sendto, which is never given a closed pcb.
    method UdpSendto(pcb: nat, idx: nat)
      requires pcb < |pcbs| && pcbs[pcb] && idx < |table| && table[idx].txid <= 0xFFFF
      requires table[idx].serverIdx < |servers| && servers[table[idx].serverIdx] != 0
      modifies `sent
      ensures Sends(old(sent), sent, idx, table[idx], servers)
    {
      var e := table[idx];
      sent := sent + [Sent(idx, e.serverIdx, servers[e.serverIdx], e.txid, e.name)];
    }

    // dns_send
    method Send(idx: nat)
      requires Inv() && idx in active && Synced(cfg, table, active, -1)
      modifies `table, `requests, `pcbs, `active, `fate, `sent
      ensures Inv() && Synced(cfg, table, active, -1)
      ensures if old(servers[table[idx].serverIdx]) == 0 then
                GivenUp(old(table), table, old(fate), fate, idx) && sent == old(sent)
              else table == old(table) && fate == old(fate) && Sends(old(sent), sent, idx, table[idx], servers)
    {
      if servers[table[idx].serverIdx] == 0 {
        GiveUp(idx);
        return;
      }
      UdpSendto(table[idx].pcbIdx, idx);
    }

    // ---------------------------------------------------------------- dns_check_entry

    // dns_check_entry for a new entry
    method CheckNew(i: nat)
      requires Inv() && Synced(cfg, table, active, i) && i < cfg.size && i in active && table[i].state == New
      modifies `table, `requests, `pcbs, `active, `fate, `txid, `sent
      ensures Inv() && Synced(cfg, table, active, -1)
      ensures |table| == |old(table)| && forall t :: 0 <= t < |table| && t != i ==> table[t] == old(table)[t]
      ensures Started(old(Now()), i, Now())
    {
      hide Ports, Tickets, DistinctIds, OnTime, Answered, Due, IdTaken;
      var id, tries := CreateTxid();
      FreshDue(cfg, table[i], table[i].(txid := id, state := Asking, serverIdx := 0, tmr := 1, retries := 0));
      Update(i, table[i].(txid := id, state := Asking, serverIdx := 0, tmr := 1, retries := 0));
      Send(i);
    }

    // The countdown of dns_check_entry for an entry that is being asked: its query is sent again, after one
    // more tick than before, at the last retry to the next server, or it timed out.
    method CountDown(was: Entry) returns (e: Entry, send: bool, timeout: bool)
      requires Shape() && was.state == Asking && GoodEntry(cfg, was)
      ensures timeout <==> LastTry(cfg, was) && !BackupServerAvailable(servers, was)
      ensures timeout ==> Due(cfg, was) == 1 + if was.serverIdx + 1 < cfg.servers
                            then Budget(cfg.servers - 1 - was.serverIdx, cfg.retries) else 0
      ensures !timeout ==> Ticked(cfg, was, e) && Due(cfg, e) + 1 == Due(cfg, was)
      ensures timeout ==>
                e.state == Asking && e.txid == was.txid && e.pcbIdx == was.pcbIdx && Due(cfg, e) <= Due(cfg, was)
      ensures send <==> was.tmr == 1 && !timeout
      ensures !send && !timeout ==> e == was.(tmr := was.tmr - 1)
      ensures send && !LastTry(cfg, was) ==> e == was.(retries := was.retries + 1, tmr := was.retries + 1)
      ensures send && LastTry(cfg, was) ==> e == was.(serverIdx := was.serverIdx + 1, retries := 0, tmr := 1)
    {
      e, send, timeout := was.(tmr := was.tmr - 1), false, false;
      if e.tmr == 0 {
        e, send := e.(retries := e.retries + 1), true;
        if e.retries == cfg.retries {
          if BackupServerAvailable(servers, e) {
            e := e.(serverIdx := e.serverIdx + 1, tmr := 1, retries := 0);
          } else {
            send, timeout := false, true;
          }
        } else {
          e := e.(tmr := e.retries);
        }
      }
    }

    // dns_check_entry for an entry that is being asked
    method CheckAsking(i: nat)
      requires Inv() && Synced(cfg, table, active, -1) && i < cfg.size && i in active
      modifies `table, `requests, `pcbs, `active, `fate, `sent
      ensures Inv() && Synced(cfg, table, active, -1)
      ensures |table| == |old(table)| && forall t :: 0 <= t < |table| && t != i ==> table[t] == old(table)[t]
      ensures Asked(old(Now()), i, Now())
    {
      hide Ports, Tickets, DistinctIds, OnTime, Answered, Due;
      var e, send, timeout := CountDown(table[i]);
      Update(i, e);
      if timeout {
        GiveUp(i);
      } else if send {
        Send(i);
      }
    }

    // dns_check_entry for a cached answer
    method CheckDone(i: nat)
      requires Inv() && Synced(cfg, table, active, -1) && i < cfg.size && table[i].state == Done
      modifies `table
      ensures Inv() && Synced(cfg, table, active, -1)
      ensures table == old(table)[i := table[i]] && i !in active
      ensures if old(table)[i].ttl <= 1 then table[i].state == Unused
              else table[i] == old(table)[i].(ttl := old(table)[i].ttl - 1)
    {
      var e := table[i];
      if e.ttl == 0 {
        e := e.(state := Unused);
      } else {
        e := e.(ttl := e.ttl - 1);
        if e.ttl == 0 {
          e := e.(state := Unused);
        }
      }
      Update(i, e);
    }

    // dns_check_entry
    method CheckEntry(i: nat)
      requires Inv() && Synced(cfg, table, active, i) && i < cfg.size && GoodEntry(cfg, table[i])
      requires i in active <==> table[i].state in {New, Asking}
      modifies `table, `requests, `pcbs, `active, `fate, `txid, `sent
      ensures Inv() && Synced(cfg, table, active, -1)
      ensures |table| == |old(table)| && forall t :: 0 <= t < |table| && t != i ==> table[t] == old(table)[t]
      ensures Checked(old(Now()), i, Now())
    {
      match table[i].state {
        case New => CheckNew(i);
        case Asking => CheckAsking(i);
        case Done => CheckDone(i);
        case Unused =>
      }
    }

    // dns_tmr and dns_check_entries
    method Tmr()
      requires Valid()
      modifies this
      ensures Valid() && TickPassed(old(Now()), Now())
    {
      NextTick();
      ticks, swept := ticks + 1, 0;
      ghost var a := Now();
      SweptNone(a);
      CheckEntries(a);
    }

    // dns_check_entries
    method CheckEntries(ghost a: View)
      requires Inv() && Synced(cfg, table, active, -1) && swept == 0 && a == Now() && SweptTo(a, Now(), 0)
      modifies this
      ensures Inv() && Synced(cfg, table, active, -1) && swept == cfg.size && SweptTo(a, Now(), cfg.size)
    {
      hide Ports, Tickets, DistinctIds, OnTime, Due, SweptTo, Checked, Synced;
      for i := 0 to cfg.size
        invariant Inv() && Synced(cfg, table, active, -1) && swept == i && SweptTo(a, Now(), i)
      {
        CheckNext(a, i);
      }
    }

    // One of them.
    method CheckNext(ghost a: View, i: nat)
      requires Inv() && Synced(cfg, table, active, -1) && i < cfg.size && swept == i && SweptTo(a, Now(), i)
      modifies this
      ensures Inv() && Synced(cfg, table, active, -1) && swept == i + 1 && SweptTo(a, Now(), i + 1)
    {
      hide Ports, Tickets, DistinctIds, OnTime, Due, Queries;
      ghost var m := Now();
      CheckEntry(i);
      SweptNext(a, m, Now(), i);
      Swept(m.table, m.fate, i);
      swept := i + 1;
    }

    lemma SweptNone(a: View)
      ensures SweptTo(a, a, 0)
    {
    }

    lemma NextTick()
      requires Valid()
      ensures OnTime(cfg, table, fate, ticks + 1, 0)
    {
    }

    // Entry i has seen the tick.
    lemma Swept(was: seq<Entry>, before: seq<Fate>, i: nat)
      requires Inv() && i < cfg.size && |was| == |table| && swept == i
      requires was[i].state != New
      requires match was[i].state
               case Asking => GivenUp(was, table, before, fate, i) || (Ticked(cfg, was[i], table[i]) && fate == before)
               case _ => i !in active
      requires OnTime(cfg, was, before, ticks, i)
      ensures OnTime(cfg, table, fate, ticks, i + 1)
    {
      hide Due;
      forall k | 0 <= k < |fate| && fate[k].Waiting? && fate[k].entry == i
        ensures Due(cfg, table[i]) + ticks - fate[k].born <= Budget(cfg.servers, cfg.retries)
      {
      }
    }

    // ---------------------------------------------------------------- dns_recv

    // dns_correct_response, once the address was copied to the entry
    method CorrectResponse(idx: nat, ttl: nat)
      requires Inv() && Synced(cfg, table, active, -1) && idx < cfg.size && idx in active
      modifies `table, `requests, `pcbs, `active, `fate
      ensures Inv() && Synced(cfg, table, active, -1)
      ensures |table| == |old(table)| && forall t :: 0 <= t < |table| && t != idx ==> table[t] == old(table)[t]
      ensures table[idx].state == (if ttl == 0 then Unused else Done) && table[idx].ipaddr == old(table)[idx].ipaddr
      ensures table[idx].name == old(table)[idx].name
      ensures table[idx].ttl == if ttl > DNS_MAX_TTL then DNS_MAX_TTL else ttl
      ensures Answered(old(fate), fate, idx, Some(old(table)[idx].ipaddr))
    {
      hide Ports, Tickets, DistinctIds, OnTime, Answered;
      var e := table[idx].(state := Done, ttl := ttl);
      if e.ttl > DNS_MAX_TTL {
        e := e.(ttl := DNS_MAX_TTL);
      }
      Update(idx, e);
      CallFound(idx, Some(table[idx].ipaddr));
      if table[idx].ttl == 0 {
        Update(idx, table[idx].(state := Unused));
      }
    }

    // The backup server is asked at once.
    method AskBackup(i: nat)
      requires Inv() && Synced(cfg, table, active, -1) && i < cfg.size && i in active
      requires BackupServerAvailable(servers, table[i])
      modifies `table, `requests, `pcbs, `active, `fate, `txid, `sent
      ensures Inv() && Synced(cfg, table, active, -1)
      ensures fate == old(fate) && |table| == |old(table)|
      ensures table[i] == old(table)[i].(serverIdx := old(table)[i].serverIdx + 1, tmr := 1, retries := 0)
      ensures Due(cfg, table[i]) < Due(cfg, old(table)[i]) && Sends(old(sent), sent, i, table[i], servers)
      ensures forall t :: 0 <= t < |table| && t != i ==> table[t] == old(table)[t]
    {
      hide Ports, Tickets, DistinctIds, OnTime, Due;
      LastRetry(table[i]);
      Update(i, table[i].(retries := cfg.retries - 1, tmr := 1));
      CheckEntry(i);
    }

    lemma LastRetry(e: Entry)
      requires Shape() && e.state == Asking && GoodEntry(cfg, e)
      ensures Due(cfg, e.(retries := cfg.retries - 1, tmr := 1)) <= Due(cfg, e)
    {
    }

    lemma MatchHasServer(t: nat, p: Packet)
      requires Valid() && Matches(table, t, p)
      ensures table[t].serverIdx < |servers|
    {
    }

    // dns_recv: p comes from the address sender, and behind is what lies behind the names in the table.
    method Recv(p: Packet, sender: nat, behind: nat -> byte)
      requires Valid()
      modifies this
      ensures Valid() && Later(old(fate), fate) && Got(old(Now()), p, sender, behind, Now())
    {
      hide Ports, Tickets, OnTime, Due, Examined, NameInTable;
      if |p| < DnsName.SIZEOF_DNS_HDR + DnsName.SIZEOF_DNS_QUERY {
        return;
      }
      var id, i := Short(p, 0), 0;
      while i < cfg.size && !(table[i].state == Asking && table[i].txid == id)
        invariant 0 <= i <= cfg.size && forall j :: 0 <= j < i ==> !Matches(table, j, p)
      {
        i := i + 1;
      }
      if i < cfg.size {
        forall t | 0 <= t < |table| && Matches(table, t, p) ensures t == i {
          OneMatch(i, t);
        }
        MatchHasServer(i, p);
        var verdict := Examine(p, NameInTable(table[i].name, behind), sender == servers[table[i].serverIdx]);
        ghost var a := Now();
        assert verdict == Judged(a, i, p, sender, behind);
        Match(i, verdict);
        OneAffected(a, i, p, sender, behind, Now());
      }
    }

    // The rest of dns_recv for the entry that was found.
    method Match(i: nat, v: Verdict)
      requires Valid() && i < cfg.size && table[i].state == Asking
      modifies `table, `requests, `pcbs, `active, `fate, `txid, `sent
      ensures Valid() && |table| == |old(table)| && Received(old(Now()), i, v, Now())
      ensures Later(old(fate), fate) && |fate| == |old(fate)|
      ensures forall t :: 0 <= t < |table| && t != i ==> table[t] == old(table)[t]
    {
      hide Ports, Tickets, DistinctIds, OnTime, Due;
      match v {
        case Ignore =>
        case Address(ip, ttl) =>
          SameDue(table[i], table[i].(ipaddr := ip));
          Update(i, table[i].(ipaddr := ip));
          CorrectResponse(i, ttl);
        case NoAddress => GiveUp(i);
        case Failure =>
          if BackupServerAvailable(servers, table[i]) {
            AskBackup(i);
          } else {
            GiveUp(i);
          }
      }
    }

    lemma SameDue(was: Entry, e: Entry)
      requires e == was.(ipaddr := e.ipaddr)
      ensures Due(cfg, e) == Due(cfg, was)
    {
    }

    // ---------------------------------------------------------------- dns_enqueue

    // The search for a free request slot.
    method FreeRequest() returns (r: nat)
      requires Shape()
      ensures r <= cfg.size && (r < cfg.size ==> !requests[r].found) && (r == cfg.size ==> RequestsFull(requests))
    {
      r := 0;
      while r < cfg.size && requests[r].found
        invariant 0 <= r <= cfg.size
        invariant forall q :: 0 <= q < r ==> requests[q].found
      {
        r := r + 1;
      }
    }

    // A request joins those waiting for entry i.
    method Join(i: nat, r: nat, arg: nat)
      requires Valid() && i < cfg.size && table[i].state == Asking && r < cfg.size && !requests[r].found
      requires arg == |fate|
      modifies `requests, `fate
      ensures Valid() && fate == old(fate) + [Waiting(r, i, ticks)]
    {
      DueBounds(cfg, table[i]);
      requests := requests[r := Request(true, arg, i)];
      fate := fate + [Waiting(r, i, ticks)];
    }

    // The check for duplicate entries.
    method JoinDuplicate(name: seq<byte>, arg: nat) returns (joined: bool)
      requires Valid() && arg == |fate|
      modifies `requests, `fate
      ensures Valid()
      ensures joined ==> |fate| == |old(fate)| + 1 && fate[..arg] == old(fate) && fate[arg].Waiting?
                         && IsDuplicate(table, fate[arg].entry, name) && fate[arg].born == ticks
      ensures !joined ==> fate == old(fate) && requests == old(requests)
      ensures !joined ==> RequestsFull(requests) || forall t: nat :: !IsDuplicate(table, t, name)
    {
      for i := 0 to cfg.size
        invariant Valid() && fate == old(fate) && requests == old(requests)
        invariant RequestsFull(requests) || forall t: nat :: t < i ==> !IsDuplicate(table, t, name)
      {
        if table[i].state == Asking && SameName(name, table[i].name) {
          var r := FreeRequest();
          if r < cfg.size {
            Join(i, r, arg);
            return true;
          }
        }
      }
      return false;
    }

    // The search for an unused entry, or the oldest completed one.
    method FindEntry() returns (i: nat)
      requires Shape()
      ensures i < cfg.size ==> BestEntry(table, seqno, i)
      ensures i >= cfg.size ==> NoEntryUsable(table, seqno)
    {
      var lseq: nat, lseqi: nat := 0, cfg.size;
      i := 0;
      while i < cfg.size
        invariant 0 <= i <= cfg.size
        invariant forall t :: 0 <= t < i ==>
                    table[t].state != Unused && (table[t].state == Done ==> Age(seqno, table[t]) <= lseq)
        invariant 0 <= lseqi && (lseqi == cfg.size ==> lseq == 0)
        invariant lseqi != cfg.size ==>
                    lseqi < cfg.size && table[lseqi].state == Done && 0 < lseq == Age(seqno, table[lseqi])
      {
        if table[i].state == Unused {
          return;
        }
        if table[i].state == Done && Age(seqno, table[i]) > lseq {
          lseq, lseqi := Age(seqno, table[i]), i;
        }
        i := i + 1;
      }
      i := lseqi;
    }

    // Fill entry i and request r, and take them back if no pcb could be had.
    method FillSlots(i: nat, r: nat, name: seq<byte>, arg: nat, created: bool, drawn: nat) returns (p: nat)
      requires Shape() && i < cfg.size && r < cfg.size
      modifies `table, `requests, `pcbs, `lastPcb, `txid
      ensures Shape() && p <= cfg.ports
      ensures p < cfg.ports ==> pcbs == old(pcbs)[p := true]
      ensures p == cfg.ports ==> pcbs == old(pcbs) && !created && forall q :: 0 <= q < cfg.ports ==> !pcbs[q]
      ensures table[i].state == (if p < cfg.ports then New else Unused)
      ensures table[i].name == Stored(name) && table[i].seqno == seqno && table[i].pcbIdx == p
      ensures table == old(table)[i := table[i]]
      ensures requests == old(requests)[r := Request(p < cfg.ports, arg, i)]
    {
      table := table[i := table[i].(state := New, seqno := seqno, name := Stored(name))];
      requests := requests[r := Request(true, arg, i)];
      p := AllocPcb(created, drawn);
      table := table[i := table[i].(pcbIdx := p)];
      if p >= cfg.ports {
        table := table[i := table[i].(state := Unused)];
        requests := requests[r := requests[r].(found := false)];
      }
    }

    // The request is accepted unless no pcb could be had.
    method Fill(i: nat, r: nat, name: seq<byte>, arg: nat, created: bool, drawn: nat) returns (ok: bool)
      requires Valid() && i < cfg.size && table[i].state in {Unused, Done}
      requires r < cfg.size && !requests[r].found && arg == |fate|
      modifies `table, `requests, `pcbs, `lastPcb, `txid, `active, `fate
      ensures Inv() && |table| == |old(table)| && forall t :: 0 <= t < |table| && t != i ==> table[t] == old(table)[t]
      ensures !ok ==> Synced(cfg, table, active, -1) && fate == old(fate)
      ensures !ok ==> !created && pcbs == old(pcbs) && forall q :: 0 <= q < |pcbs| ==> !pcbs[q]
      ensures ok ==> Synced(cfg, table, active, i) && i in active
      ensures ok ==> table[i].state == New && table[i].name == Stored(name) && table[i].seqno == seqno
      ensures ok ==> fate == old(fate) + [Waiting(r, i, ticks)]
    {
      hide DistinctIds, Ports, Tickets, OnTime;
      var p := FillSlots(i, r, name, arg, created, drawn);
      ok := p < cfg.ports;
      IdsShrink(old(table), i, table[i]);
      if ok {
        ghost var w := Waiting(r, i, ticks);
        PortJoined(old(table), old(pcbs), active, i, table[i]);
        TicketAdded(old(requests), old(fate), active, r, w);
        TimeStarts(cfg, old(table), old(fate), ticks, swept, active, old(requests), table[i], w);
        active := active + {i};
        fate := fate + [w];
      } else {
        PortsSame(old(table), table, pcbs, active);
        NoTicket(old(requests), old(fate), active, r, requests[r]);
        TimeSame(cfg, old(table), old(fate), ticks, swept, active, old(requests), i, table[i]);
      }
    }

    // dns_enqueue; ok stands for ERR_INPROGRESS, otherwise ERR_MEM.  arg numbers the accepted requests.
    // An entry that is being asked is never overwritten.
    method Enqueue(name: seq<byte>, arg: nat, created: bool, drawn: nat) returns (ok: bool)
      requires Valid() && arg == |fate|
      modifies this
      ensures Valid() && Queried(old(Now()), name, created, Now())
      ensures ok <==> fate != old(fate)
    {
      hide Valid, Inv, Age, BestEntry;
      ValidShape();
      ok := JoinDuplicate(name, arg);
      if ok {
        return;
      }
      var i := FindEntry();
      if i >= cfg.size {
        return;
      }
      var r := FreeRequest();
      if r >= cfg.size {
        return;
      }
      ok := EnqueueNew(i, r, name, arg, created, drawn);
    }

    lemma ValidShape()
      requires Valid()
      ensures Shape()
    {
    }

    // The request gets an entry of its own.
    method EnqueueNew(i: nat, r: nat, name: seq<byte>, arg: nat, created: bool, drawn: nat) returns (ok: bool)
      requires Valid() && BestEntry(table, seqno, i) && r < cfg.size && !requests[r].found && arg == |fate|
      modifies this
      ensures Valid() && Queried(old(Now()), name, created, Now())
      ensures ok <==> fate != old(fate)
    {
      hide DistinctIds, Ports, Tickets, OnTime, GoodEntry, Answered, Age, Due, SameName, Stored;
      SameAsStored(name);
      ok := Fill(i, r, name, arg, created, drawn);
      if !ok {
        return;
      }
      ghost var w := fate[arg];
      seqno := (seqno + 1) % 256;
      CheckEntry(i);
      if servers[0] == 0 {
        OnlyNewAnswered(old(requests), old(fate), old(active), w, fate);
      }
    }
  }

  // The n-th id the counter draws.
  ghost function Drawn(start: nat, n: nat): nat {
    (start + n) % 0x10000
  }

  lemma NextDrawn(start: nat, n: nat)
    ensures (Drawn(start, n) + 1) % 0x10000 == Drawn(start, n + 1)
  {
  }

  lemma DrawnDiffer(start: nat, d: nat, n: nat)
    requires d < n < d + 0x10000
    ensures Drawn(start, d) != Drawn(start, n)
  {
    var q, r := (start + d) / 0x10000, (start + n) / 0x10000;
    assert start + d == q * 0x10000 + Drawn(start, d);
    assert start + n == r * 0x10000 + Drawn(start, n);
  }

  // The first n ids drawn, all of them taken.
  ghost predicate Tried(tried: set<nat>, table: seq<Entry>, start: nat, n: nat) {
    && |tried| == n && tried <= TakenIds(table)
    && forall x :: x in tried ==> exists d :: 1 <= d <= n && x == Drawn(start, d)
  }

  lemma NoTry(table: seq<Entry>, start: nat) returns (tried: set<nat>)
    requires start <= 0xFFFF
    ensures Tried(tried, table, start, 0) && start == Drawn(start, 0)
  {
    tried := {};
  }

  lemma AnotherTry(tried: set<nat>, table: seq<Entry>, start: nat, n: nat, id: nat) returns (more: set<nat>)
    requires Tried(tried, table, start, n) && n < 0x10000 && id == Drawn(start, n + 1) && IdTaken(table, id)
    ensures Tried(more, table, start, n + 1) && n + 1 <= |table|
  {
    hide Drawn, TakenIds, IdTaken;
    TakenIdsAre(table);
    if id in tried {
      var d :| 1 <= d <= n && id == Drawn(start, d);
      DrawnDiffer(start, d, n + 1);
    }
    more := tried + {id};
    SubsetSize(more, TakenIds(table));
    forall x | x in more ensures exists d :: 1 <= d <= n + 1 && x == Drawn(start, d) {
      if x in tried {
        var d :| 1 <= d <= n && x == Drawn(start, d);
      }
    }
  }

  // End to end: the server that was asked replies to the question of entry i, in any letter case, with
  // whatever records.  Everyone who waits for the entry is told the first address among the answers, or
  // that there is none; an error code makes the resolver go on to the next server, if there is one.
  method ReplyDecides(r: Resolver, i: nat, p: Packet, behind: nat -> byte, ghost name: DnsName.Name,
                      ghost flags1: byte, ghost flags2: byte, ghost counts: seq<byte>, ghost rs: seq<Record>,
                      ghost rest: seq<byte>)
    requires r.Valid() && i < |r.table| && r.table[i].state == Asking
    requires DnsName.IsHostname(name) && SameName(name, r.table[i].name)
    requires |rs| <= 0xFFFF && |counts| == 4 && 128 <= flags1
    requires p == Reply(r.table[i].txid, flags1, flags2, counts, DnsName.Split(name, 0), rs, rest)
    modifies r
    ensures r.Valid() && |r.table| == |old(r.table)|
    ensures Received(old(r.Now()), i, if flags2 % 16 != 0 then Failure else Decision(rs), r.Now())
  {
    assert r.table[i].serverIdx < |r.servers|;
    ReplyJudged(r.Now(), i, p, behind, name, flags1, flags2, counts, rs, rest);
    hide Resolver.Valid, Reply, Judged, Matches, Decision, Received;
    r.Recv(p, r.servers[r.table[i].serverIdx], behind);
  }

  // What dns_recv makes of such a reply.
  lemma ReplyJudged(a: View, i: nat, p: Packet, behind: nat -> byte, name: DnsName.Name, flags1: byte, flags2: byte,
                    counts: seq<byte>, rs: seq<Record>, rest: seq<byte>)
    requires i < |a.table| && a.table[i].state == Asking && a.table[i].serverIdx < |a.servers|
    requires DnsName.IsHostname(name) && SameName(name, a.table[i].name)
    requires |rs| <= 0xFFFF && |counts| == 4 && 128 <= flags1 && a.table[i].txid <= 0xFFFF
    requires p == Reply(a.table[i].txid, flags1, flags2, counts, DnsName.Split(name, 0), rs, rest)
    ensures Matches(a.table, i, p)
    ensures Judged(a, i, p, a.servers[a.table[i].serverIdx], behind)
         == if flags2 % 16 != 0 then Failure else Decision(rs)
  {
    var query := NameInTable(a.table[i].name, behind);
    assert DnsName.SameLabel(query, 0, name);
    hide Reply, Examined, Decision, Short, NameInTable;
    DnsName.SameNameAgrees(query, name, 0);
    HostnameIsPlain(name);
    ReplyIsUnderstood(p, query, a.table[i].txid, flags1, flags2, counts, DnsName.Split(name, 0), rs, rest);
  }

  lemma HostnameIsPlain(name: DnsName.Name)
    requires DnsName.IsHostname(name)
    ensures DnsName.Plain(DnsName.Split(name, 0))
  {
  }

  // One operation: requests that were accepted stay accepted, and none is called back a second time.
  method Step(r: Resolver, op: Op, accepted: nat) returns (next: nat)
    requires r.Valid() && accepted == |r.fate|
    modifies r
    ensures r.Valid() && next == |r.fate| && Stepped(old(r.Now()), op, r.Now()) && Later(old(r.fate), r.fate)
    ensures r.ticks == old(r.ticks) + if op.Tick? then 1 else 0
  {
    hide Resolver.Valid;
    next := accepted;
    match op {
      case Query(name, created, drawn) =>
        var ok := r.Enqueue(name, accepted, created, drawn);
        next := if ok then accepted + 1 else accepted;
        assert ok ==> forall k :: 0 <= k < accepted ==> r.fate[k] == r.fate[..accepted][k];
      case Tick => r.Tmr();
      case Datagram(p, sender, behind) => r.Recv(p, sender, behind);
      case Server(num, addr) => r.SetServer(num, addr);
    }
  }
}
