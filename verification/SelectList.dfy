// sockets.c: the state of the threads waiting in select, and what every step of theirs keeps.
module SelectList {
  import opened Wrappers

  datatype Bit = Recv | Send | Error

  // struct lwip_sock, as far as select is concerned
  datatype Sock = Sock(rcvevent: int, sendevent: bool, errevent: bool, waiting: nat)

  // How far a call of lwip_select has come since it put its entry on the list: it increments
  // select_waiting of socket i next, scans socket i for the second time (and found one ready), waits
  // for its semaphore, decrements select_waiting of socket i up to a limit, or has left the list.
  datatype Phase = Inc(i: nat) | Rescan(i: nat, ready: bool) | Parked | Dec(i: nat, limit: nat) | Gone

  // struct lwip_select_cb; signals counts the calls of sys_sem_signal.  Entries are never reused, as
  // each call has its own.
  datatype Cb = Cb(readset: set<nat>, writeset: set<nat>, exceptset: set<nat>, max: nat,
                   next: Option<nat>, prev: Option<nat>, signalled: bool, signals: nat, phase: Phase)

  // A call of select_check_waiters: before its first look at the list, between two entries, or over.
  datatype Place = Start | At(node: nat, last: nat) | Over
  datatype Walk = Walk(s: nat, recv: bool, send: bool, error: bool, place: Place)

  predicate InSet(cb: Cb, s: nat, b: Bit) {
    match b case Recv => s in cb.readset case Send => s in cb.writeset case Error => s in cb.exceptset
  }

  // The call asked for the event; only lwip_select itself looks at maxfdp1.
  predicate Watches(cb: Cb, s: nat, b: Bit) {
    s < cb.max && InSet(cb, s, b)
  }

  predicate WatchesAny(cb: Cb, s: nat) {
    Watches(cb, s, Recv) || Watches(cb, s, Send) || Watches(cb, s, Error)
  }

  predicate Ready(sock: Sock, b: Bit) {
    match b case Recv => sock.rcvevent > 0 case Send => sock.sendevent case Error => sock.errevent
  }

  predicate Has(walk: Walk, b: Bit) {
    match b case Recv => walk.recv case Send => walk.send case Error => walk.error
  }

  // ---------------------------------------------------------------- the linked list

  ghost predicate NoDup(list: seq<nat>) {
    forall i, j :: 0 <= i < j < |list| ==> list[i] != list[j]
  }

  ghost predicate Linked(cbs: seq<Cb>, head: Option<nat>, list: seq<nat>) {
    && NoDup(list)
    && (forall i :: 0 <= i < |list| ==> list[i] < |cbs|)
    && head == (if list == [] then None else Some(list[0]))
    && (forall i, j :: 0 <= i < |list| && j == i + 1 && j < |list| ==>
          cbs[list[i]].next == Some(list[j]) && cbs[list[j]].prev == Some(list[i]))
    && (list != [] ==> cbs[list[0]].prev == None && cbs[list[|list| - 1]].next == None)
  }

  // The entries behind node.
  ghost function After(list: seq<nat>, node: nat): seq<nat> {
    if list == [] then [] else if list[0] == node then list[1..] else After(list[1..], node)
  }

  lemma {:induction false} AfterAt(list: seq<nat>, i: nat)
    requires NoDup(list) && i < |list|
    ensures After(list, list[i]) == list[i + 1..]
  {
    if i > 0 {
      assert list[1..][i - 1] == list[i];
      AfterAt(list[1..], i - 1);
      assert list[1..][i..] == list[i + 1..];
    }
  }

  lemma IndexOf(list: seq<nat>, x: nat) returns (i: nat)
    requires x in list
    ensures i < |list| && list[i] == x
  {
    i :| i < |list| && list[i] == x;
  }

  // The next pointer of an entry on the list leads to the entries behind it.
  lemma NextIs(cbs: seq<Cb>, head: Option<nat>, list: seq<nat>, node: nat)
    requires Linked(cbs, head, list) && node in list
    ensures node < |cbs|
    ensures var rest := After(list, node);
      if rest == [] then cbs[node].next == None
      else cbs[node].next == Some(rest[0]) && rest[0] in list && rest[1..] == After(list, rest[0])
  {
    var i := IndexOf(list, node);
    AfterAt(list, i);
    if i + 1 < |list| {
      AfterAt(list, i + 1);
      assert list[i + 1..][0] == list[i + 1];
      assert list[i + 1..][1..] == list[i + 2..];
    }
  }

  // Entries that differ in neither pointer are linked alike.
  lemma LinkedSame(cbs: seq<Cb>, next: seq<Cb>, head: Option<nat>, list: seq<nat>)
    requires Linked(cbs, head, list) && |cbs| <= |next|
    requires forall w :: 0 <= w < |cbs| ==> next[w].next == cbs[w].next && next[w].prev == cbs[w].prev
    ensures Linked(next, head, list)
  {
  }

  ghost predicate PointersOnly(was: seq<Cb>, now: seq<Cb>) {
    |was| == |now| && forall w :: 0 <= w < |was| ==> now[w] == was[w].(next := now[w].next, prev := now[w].prev)
  }

  ghost function Without(list: seq<nat>, i: nat): seq<nat>
    requires i < |list|
  {
    list[..i] + list[i + 1..]
  }

  lemma WithoutIs(list: seq<nat>, i: nat)
    requires NoDup(list) && i < |list|
    ensures forall x :: x in Without(list, i) <==> x in list && x != list[i]
  {
    forall x | x in list && x != list[i] ensures x in Without(list, i) {
      var j := IndexOf(list, x);
      assert Without(list, i)[if j < i then j else j - 1] == x;
    }
  }

  lemma Neighbours(cbs: seq<Cb>, head: Option<nat>, list: seq<nat>, i: nat)
    requires Linked(cbs, head, list) && i < |list|
    ensures list[i] < |cbs| && (head == Some(list[i]) <==> i == 0)
    ensures 0 < i ==> list[i - 1] < |cbs| && list[i - 1] != list[i] && cbs[list[i]].prev == Some(list[i - 1])
    ensures i == 0 ==> cbs[list[i]].prev == None
    ensures i + 1 < |list| ==>
              list[i + 1] < |cbs| && list[i + 1] != list[i] && cbs[list[i]].next == Some(list[i + 1])
    ensures i + 1 == |list| ==> cbs[list[i]].next == None
  {
    if 0 < i {
      var p := i - 1;
      assert list[p] < |cbs|;
    }
    if i + 1 < |list| {
      var n := i + 1;
      assert list[n] < |cbs|;
    }
  }

  lemma WithoutAt(list: seq<nat>, i: nat, a: nat)
    requires i < |list| && a < |list| - 1
    ensures |Without(list, i)| == |list| - 1
    ensures Without(list, i)[a] == list[if a < i then a else a + 1]
  {
  }

  lemma WithoutNoDup(list: seq<nat>, i: nat)
    requires NoDup(list) && i < |list|
    ensures NoDup(Without(list, i))
  {
    var rest := Without(list, i);
    forall a, b | 0 <= a < b < |rest| ensures rest[a] != rest[b] {
      WithoutAt(list, i, a);
      WithoutAt(list, i, b);
    }
  }

  // The pointers once the neighbours of the i-th entry are joined.
  ghost predicate Bridged(cbs: seq<Cb>, now: seq<Cb>, list: seq<nat>, i: nat)
    requires i < |list| && list[i] < |cbs|
  {
    && |now| == |cbs|
    && (forall v :: 0 <= v < |cbs| ==>
          now[v].next == if 0 < i && v == list[i - 1] then cbs[list[i]].next else cbs[v].next)
    && (forall v :: 0 <= v < |cbs| ==>
          now[v].prev == if i + 1 < |list| && v == list[i + 1] then cbs[list[i]].prev else cbs[v].prev)
  }

  lemma BridgedPair(cbs: seq<Cb>, now: seq<Cb>, head: Option<nat>, list: seq<nat>, i: nat, a: nat)
    requires Linked(cbs, head, list) && i < |list| && a + 1 < |list| - 1
    requires list[i] < |cbs| && Bridged(cbs, now, list, i)
    ensures var rest := Without(list, i);
      && |rest| == |list| - 1 && rest[a] < |now| && rest[a + 1] < |now|
      && now[rest[a]].next == Some(rest[a + 1]) && now[rest[a + 1]].prev == Some(rest[a])
  {
    WithoutAt(list, i, a);
    WithoutAt(list, i, a + 1);
    var x := if a < i then a else a + 1;
    var y := if a + 1 < i then a + 1 else a + 2;
    Neighbours(cbs, head, list, x);
    Neighbours(cbs, head, list, y);
    Neighbours(cbs, head, list, i);
    Different(cbs, head, list, x, y, i);
    hide Linked, Without;
  }

  lemma Different(cbs: seq<Cb>, head: Option<nat>, list: seq<nat>, x: nat, y: nat, i: nat)
    requires Linked(cbs, head, list) && x < y < |list| && i < |list|
    ensures 0 < i && x != i - 1 ==> list[x] != list[i - 1]
    ensures i + 1 < |list| && y != i + 1 ==> list[y] != list[i + 1]
  {
  }

  lemma BridgedEnds(cbs: seq<Cb>, now: seq<Cb>, head: Option<nat>, list: seq<nat>, i: nat)
    requires Linked(cbs, head, list) && i < |list|
    requires list[i] < |cbs| && Bridged(cbs, now, list, i)
    ensures var rest := Without(list, i);
      && (if i == 0 then cbs[list[i]].next else head) == (if rest == [] then None else Some(rest[0]))
      && (forall a :: 0 <= a < |rest| ==> rest[a] < |now|)
      && (rest != [] ==> now[rest[0]].prev == None && now[rest[|rest| - 1]].next == None)
  {
    var rest, last := Without(list, i), |list| - 1;
    forall a | 0 <= a < |rest| ensures rest[a] < |now| {
      WithoutAt(list, i, a);
    }
    Neighbours(cbs, head, list, i);
    if rest != [] {
      WithoutAt(list, i, 0);
      WithoutAt(list, i, last - 1);
      Neighbours(cbs, head, list, 0);
      Neighbours(cbs, head, list, last);
      Neighbours(cbs, head, list, if 0 < i then 0 else 1);
      Neighbours(cbs, head, list, if i < last then last else last - 1);
    }
  }

  // The list is linked without the entry.
  lemma Joined(cbs: seq<Cb>, now: seq<Cb>, head: Option<nat>, list: seq<nat>, i: nat)
    requires Linked(cbs, head, list) && i < |list|
    requires list[i] < |cbs| && Bridged(cbs, now, list, i)
    ensures Linked(now, if i == 0 then cbs[list[i]].next else head, Without(list, i))
  {
    WithoutNoDup(list, i);
    BridgedEnds(cbs, now, head, list, i);
    hide Without, Bridged;
    var rest := Without(list, i);
    forall a, b | 0 <= a < |rest| && b == a + 1 && b < |rest|
      ensures now[rest[a]].next == Some(rest[b]) && now[rest[b]].prev == Some(rest[a])
    {
      WithoutLength(list, i);
      BridgedPair(cbs, now, head, list, i, a);
    }
  }

  lemma WithoutLength(list: seq<nat>, i: nat)
    requires i < |list|
    ensures |Without(list, i)| == |list| - 1
  {
  }

  // ---------------------------------------------------------------- phases and counters

  ghost predicate GoodCb(cb: Cb, n: nat) {
    && cb.max <= n && cb.signals == (if cb.signalled then 1 else 0)
    && match cb.phase
       case Inc(i) => i <= cb.max
       case Rescan(i, _) => i <= cb.max
       case Dec(i, limit) => i <= limit <= cb.max
       case _ => true
  }

  ghost predicate Phases(cbs: seq<Cb>, list: seq<nat>, n: nat) {
    && (forall w :: 0 <= w < |cbs| ==> GoodCb(cbs[w], n) && (w in list <==> cbs[w].phase != Gone))
    && (forall w :: w in list ==> w < |cbs|)
  }

  // The call has incremented select_waiting of socket s and not decremented it again.
  predicate Holds(cb: Cb, s: nat) {
    WatchesAny(cb, s) &&
    match cb.phase
    case Inc(i) => s < i
    case Rescan(_, _) => true
    case Parked => true
    case Dec(i, limit) => i <= s < limit
    case Gone => false
  }

  ghost function Holders(cbs: seq<Cb>, s: nat): set<nat> {
    set w | 0 <= w < |cbs| && Holds(cbs[w], s)
  }

  // select_waiting counts them.
  ghost predicate Counts(cbs: seq<Cb>, socks: seq<Sock>) {
    forall s :: 0 <= s < |socks| ==> |Holders(cbs, s)| <= socks[s].waiting
  }

  lemma HolderCounts(cbs: seq<Cb>, socks: seq<Sock>, w: nat, s: nat)
    requires Counts(cbs, socks) && w < |cbs| && s < |socks| && Holds(cbs[w], s)
    ensures 0 < socks[s].waiting
  {
    assert w in Holders(cbs, s);
  }

  // An entry that holds no more sockets than before leaves the counters high enough.
  lemma CountsFewer(cbs: seq<Cb>, socks: seq<Sock>, w: nat, cb: Cb)
    requires Counts(cbs, socks) && w < |cbs|
    requires forall s :: 0 <= s < |socks| && Holds(cb, s) ==> Holds(cbs[w], s)
    ensures Counts(cbs[w := cb], socks)
  {
    forall s | 0 <= s < |socks| ensures |Holders(cbs[w := cb], s)| <= socks[s].waiting {
      assert Holders(cbs[w := cb], s) <= Holders(cbs, s);
      SubsetSize(Holders(cbs[w := cb], s), Holders(cbs, s));
    }
  }

  // Socket s gets one more holder, and its counter is incremented.
  lemma CountsMore(cbs: seq<Cb>, socks: seq<Sock>, w: nat, cb: Cb, s: nat, sock: Sock)
    requires Counts(cbs, socks) && w < |cbs| && s < |socks| && sock.waiting == socks[s].waiting + 1
    requires forall t :: 0 <= t < |socks| && t != s && Holds(cb, t) ==> Holds(cbs[w], t)
    ensures Counts(cbs[w := cb], socks[s := sock])
  {
    var next, after := cbs[w := cb], socks[s := sock];
    forall t | 0 <= t < |socks| ensures |Holders(next, t)| <= after[t].waiting {
      var now := Holders(next, t);
      SubsetSize(now - {w}, Holders(cbs, t) - {w});
      if t != s {
        assert now <= Holders(cbs, t);
        SubsetSize(now, Holders(cbs, t));
      }
    }
  }

  // Socket s loses a holder, and its counter is decremented.
  lemma CountsLess(cbs: seq<Cb>, socks: seq<Sock>, w: nat, cb: Cb, s: nat, sock: Sock)
    requires Counts(cbs, socks) && w < |cbs| && s < |socks| && sock.waiting + 1 == socks[s].waiting
    requires Holds(cbs[w], s) && !Holds(cb, s)
    requires forall t :: 0 <= t < |socks| && Holds(cb, t) ==> Holds(cbs[w], t)
    ensures Counts(cbs[w := cb], socks[s := sock])
  {
    var next, after := cbs[w := cb], socks[s := sock];
    forall t | 0 <= t < |socks| ensures |Holders(next, t)| <= after[t].waiting {
      var now := Holders(next, t);
      assert w in Holders(cbs, s);
      if t == s {
        assert now <= Holders(cbs, t) - {w};
        SubsetSize(now, Holders(cbs, t) - {w});
      } else {
        assert now <= Holders(cbs, t);
        SubsetSize(now, Holders(cbs, t));
      }
    }
  }

  // ---------------------------------------------------------------- no lost wake-up

  // The call found socket s not ready when it scanned it with its entry on the list, and goes on to
  // wait for its semaphore, or does so already.
  predicate Relies(cb: Cb, s: nat) {
    match cb.phase case Parked => true case Rescan(i, ready) => !ready && s < i case _ => false
  }

  // The walk has still to look at entry w: from the start of the list if that has changed, otherwise
  // because it lies behind the entry it looked at last.
  ghost predicate ToVisit(walk: Walk, list: seq<nat>, ctr: nat, w: nat) {
    match walk.place
    case Start => true
    case At(node, last) => last != ctr || w in After(list, node)
    case Over => false
  }

  // It has to do so on behalf of event b.
  ghost predicate Owes(walk: Walk, list: seq<nat>, ctr: nat, w: nat, s: nat, b: Bit) {
    walk.s == s && Has(walk, b) && ToVisit(walk, list, ctr, w)
  }

  ghost predicate Owed(walks: seq<Walk>, list: seq<nat>, ctr: nat, w: nat, s: nat, b: Bit) {
    exists k :: 0 <= k < |walks| && Owes(walks[k], list, ctr, w, s, b)
  }

  // An entry that is not signalled and relies on socket s being not ready.
  predicate Exposed(cb: Cb, s: nat, b: Bit) {
    !cb.signalled && Relies(cb, s) && Watches(cb, s, b)
  }

  // If a call relies on a socket that has become ready, a walk for that socket has still to reach it.
  ghost predicate NoneLost(cbs: seq<Cb>, socks: seq<Sock>, walks: seq<Walk>, list: seq<nat>, ctr: nat) {
    forall w, s, b :: 0 <= w < |cbs| && 0 <= s < |socks| && Exposed(cbs[w], s, b) && Ready(socks[s], b) ==>
      Owed(walks, list, ctr, w, s, b)
  }

  ghost predicate GoodWalks(walks: seq<Walk>, list: seq<nat>, ctr: nat) {
    forall k :: 0 <= k < |walks| && walks[k].place.At? ==>
      walks[k].place.last <= ctr && (walks[k].place.last == ctr ==> walks[k].place.node in list)
  }

  // When the list changes, so does the counter, and every walk starts again.
  lemma ListChanged(cbs: seq<Cb>, next: seq<Cb>, socks: seq<Sock>, walks: seq<Walk>, list: seq<nat>, now: seq<nat>,
                    ctr: nat)
    requires NoneLost(cbs, socks, walks, list, ctr) && GoodWalks(walks, list, ctr) && |cbs| <= |next|
    requires forall w, s, b :: 0 <= w < |next| && Exposed(next[w], s, b) ==> w < |cbs| && Exposed(cbs[w], s, b)
    ensures NoneLost(next, socks, walks, now, ctr + 1) && GoodWalks(walks, now, ctr + 1)
  {
    forall w, s, b | 0 <= w < |next| && 0 <= s < |socks| && Exposed(next[w], s, b) && Ready(socks[s], b)
      ensures Owed(walks, now, ctr + 1, w, s, b)
    {
      assert Owed(walks, list, ctr, w, s, b);
      var k :| 0 <= k < |walks| && Owes(walks[k], list, ctr, w, s, b);
      assert Owes(walks[k], now, ctr + 1, w, s, b);
    }
  }

  // An entry that relies on no more than before.
  lemma LessExposed(cbs: seq<Cb>, socks: seq<Sock>, walks: seq<Walk>, list: seq<nat>, ctr: nat, w: nat, cb: Cb)
    requires NoneLost(cbs, socks, walks, list, ctr) && w < |cbs|
    requires forall s, b :: 0 <= s < |socks| && Exposed(cb, s, b) && Ready(socks[s], b) ==> Exposed(cbs[w], s, b)
    ensures NoneLost(cbs[w := cb], socks, walks, list, ctr)
  {
    forall v, s, b | 0 <= v < |cbs| && 0 <= s < |socks| && Exposed(cbs[w := cb][v], s, b) && Ready(socks[s], b)
      ensures Owed(walks, list, ctr, v, s, b)
    {
      assert Exposed(cbs[v], s, b);
    }
  }

  // A socket on which nothing new is ready.
  lemma LessReady(cbs: seq<Cb>, socks: seq<Sock>, walks: seq<Walk>, list: seq<nat>, ctr: nat, s: nat, sock: Sock)
    requires NoneLost(cbs, socks, walks, list, ctr) && s < |socks|
    requires forall b :: Ready(sock, b) ==> Ready(socks[s], b)
    ensures NoneLost(cbs, socks[s := sock], walks, list, ctr)
  {
    forall w, t, b | 0 <= w < |cbs| && 0 <= t < |socks| && Exposed(cbs[w], t, b) && Ready(socks[s := sock][t], b)
      ensures Owed(walks, list, ctr, w, t, b)
    {
      assert Ready(socks[t], b);
    }
  }

  // An event with a walk of its own.
  lemma WalkAdded(cbs: seq<Cb>, socks: seq<Sock>, walks: seq<Walk>, list: seq<nat>, ctr: nat, s: nat, sock: Sock,
                  walk: Walk)
    requires NoneLost(cbs, socks, walks, list, ctr) && GoodWalks(walks, list, ctr) && s < |socks|
    requires walk.s == s && walk.place == Start && forall b :: Ready(sock, b) ==> Has(walk, b)
    ensures NoneLost(cbs, socks[s := sock], walks + [walk], list, ctr) && GoodWalks(walks + [walk], list, ctr)
  {
    var more := walks + [walk];
    forall w, t, b | 0 <= w < |cbs| && 0 <= t < |socks| && Exposed(cbs[w], t, b) && Ready(socks[s := sock][t], b)
      ensures Owed(more, list, ctr, w, t, b)
    {
      if t == s {
        assert Owes(more[|walks|], list, ctr, w, t, b);
      } else {
        assert Owed(walks, list, ctr, w, t, b);
        var k :| 0 <= k < |walks| && Owes(walks[k], list, ctr, w, t, b);
        assert Owes(more[k], list, ctr, w, t, b);
      }
    }
  }

  // An event on a socket nobody counts: no entry relies on it.
  lemma NobodyWaits(cbs: seq<Cb>, socks: seq<Sock>, walks: seq<Walk>, list: seq<nat>, ctr: nat, s: nat, sock: Sock)
    requires NoneLost(cbs, socks, walks, list, ctr) && Counts(cbs, socks) && s < |socks| && socks[s].waiting == 0
    ensures NoneLost(cbs, socks[s := sock], walks, list, ctr)
  {
    forall w, t, b | 0 <= w < |cbs| && 0 <= t < |socks| && Exposed(cbs[w], t, b) && Ready(socks[s := sock][t], b)
      ensures Owed(walks, list, ctr, w, t, b)
    {
      if t == s {
        assert Holds(cbs[w], s);
        HolderCounts(cbs, socks, w, s);
        assert false;
      }
    }
  }

  // Walk k looks at entry x, which it signals if an event it knows of is in its sets.
  lemma WalkLooked(cbs: seq<Cb>, socks: seq<Sock>, walks: seq<Walk>, list: seq<nat>, ctr: nat, k: nat, x: nat, cb: Cb)
    requires NoneLost(cbs, socks, walks, list, ctr) && GoodWalks(walks, list, ctr) && NoDup(list)
    requires Phases(cbs, list, |socks|)
    requires k < |walks| && x in list && x < |cbs|
    requires cb.signalled || (cb == cbs[x] && forall b :: Watches(cb, walks[k].s, b) ==> !Has(walks[k], b))
    // what is still owed by the walk lies at or behind x
    requires forall w :: w in list && w != x && ToVisit(walks[k], list, ctr, w) ==> w in After(list, x)
    ensures var next := walks[k := walks[k].(place := At(x, ctr))];
      NoneLost(cbs[x := cb], socks, next, list, ctr) && GoodWalks(next, list, ctr)
  {
    var next := walks[k := walks[k].(place := At(x, ctr))];
    forall w, s, b | 0 <= w < |cbs| && 0 <= s < |socks| && Exposed(cbs[x := cb][w], s, b) && Ready(socks[s], b)
      ensures Owed(next, list, ctr, w, s, b)
    {
      assert Exposed(cbs[w], s, b) && w in list;
      assert Owed(walks, list, ctr, w, s, b);
      var j :| 0 <= j < |walks| && Owes(walks[j], list, ctr, w, s, b);
      assert Owes(next[j], list, ctr, w, s, b);
    }
  }

  // Walk k has nobody left to look at.
  lemma WalkOver(cbs: seq<Cb>, socks: seq<Sock>, walks: seq<Walk>, list: seq<nat>, ctr: nat, k: nat)
    requires NoneLost(cbs, socks, walks, list, ctr) && GoodWalks(walks, list, ctr) && Phases(cbs, list, |socks|)
    requires k < |walks|
    requires forall w :: w in list ==> !ToVisit(walks[k], list, ctr, w)
    ensures var next := walks[k := walks[k].(place := Over)];
      NoneLost(cbs, socks, next, list, ctr) && GoodWalks(next, list, ctr)
  {
    var next := walks[k := walks[k].(place := Over)];
    forall w, s, b | 0 <= w < |cbs| && 0 <= s < |socks| && Exposed(cbs[w], s, b) && Ready(socks[s], b)
      ensures Owed(next, list, ctr, w, s, b)
    {
      assert w in list;
      var j :| 0 <= j < |walks| && Owes(walks[j], list, ctr, w, s, b);
      assert Owes(next[j], list, ctr, w, s, b);
    }
  }
}
