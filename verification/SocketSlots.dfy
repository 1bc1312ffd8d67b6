// sockets.c: reference-counted descriptor slots (LWIP_NETCONN_FULLDUPLEX).  Every method that changes a
// slot is one section under SYS_ARCH_PROTECT; threads interleave between them.
module SocketSlots {
  import opened Wrappers

  // fd_free_pending is 0, or LWIP_SOCK_FD_FREE_FREE with or without LWIP_SOCK_FD_FREE_TCP.
  datatype Pending = No | Free(tcp: bool)

  // struct lwip_sock, as far as its life is concerned
  datatype Sock = Sock(conn: Option<nat>, used: nat, pending: Pending)

  // A reference a thread holds, and the netconn it saw in the slot when it took or checked it.
  datatype Ref = Ref(thread: nat, seen: Option<nat>)

  // Where a netconn is: with the thread that created it, in a slot, taken out of its slot by a thread
  // that is about to delete it, or deleted, after it was in a slot or without having been in one.
  datatype Place = Loose(thread: nat) | InSlot(slot: nat) | Condemned(thread: nat) | Deleted(used: bool)

  datatype NetconnType = TCP | OTHER

  // deletes counts the calls of netconn_delete
  datatype Netconn = Netconn(kind: NetconnType, place: Place, deletes: nat)

  // One step of some thread.
  datatype Step =
    | New(thread: nat, kind: NetconnType)           // netconn_new
    | TrySlot(thread: nat, conn: nat, slot: nat)    // one round of the loop of alloc_socket
    | NoSlot(thread: nat, conn: nat)                // alloc_socket returned -1
    | Take(thread: nat, slot: nat)                  // sock_inc_used
    | Check(ref: Ref, slot: nat)                    // tryget_socket reads conn
    | Done(ref: Ref, slot: nat)                     // done_socket, the section
    | Close(ref: Ref, slot: nat)                    // free_socket, the section
    | Delete(thread: nat, conn: nat)                // free_socket_free_elements

  // ---------------------------------------------------------------- invariants

  // fd_used counts the references, and what a holder saw in the slot is still there.
  ghost predicate Counted(sock: Sock, refs: multiset<Ref>) {
    sock.used == |refs| && forall r :: r in refs && r.seen.Some? ==> sock.conn == r.seen
  }

  // A slot that is to be freed still has a holder, who will do it.
  ghost predicate WillBeFreed(sock: Sock) {
    sock.conn.Some? && sock.pending.Free? ==> 0 < sock.used
  }

  // Netconns and slots fit together.
  ghost predicate Placed(socks: seq<Sock>, conns: seq<Netconn>) {
    && (forall c :: 0 <= c < |conns| && conns[c].place.InSlot? ==>
          conns[c].place.slot < |socks| && socks[conns[c].place.slot].conn == Some(c))
    && (forall s :: 0 <= s < |socks| && socks[s].conn.Some? ==>
          socks[s].conn.value < |conns| && conns[socks[s].conn.value].place == InSlot(s)
          && (socks[s].pending.Free? ==> socks[s].pending.tcp == (conns[socks[s].conn.value].kind == TCP)))
  }

  // Every netconn that was closed is on its way out of its slot, out of it, or deleted, and no other
  // netconn ever leaves a slot.
  ghost predicate ClosedLeave(socks: seq<Sock>, conns: seq<Netconn>, closed: set<nat>) {
    && (forall c :: c in closed ==> c < |conns|)
    && (forall c :: 0 <= c < |conns| ==>
          && conns[c].deletes == (if conns[c].place.Deleted? then 1 else 0)
          && (c in closed <==> Leaving(socks, conns[c].place)))
  }

  ghost predicate Leaving(socks: seq<Sock>, place: Place) {
    match place
    case Loose(_) => false
    case InSlot(s) => s < |socks| && socks[s].pending.Free?
    case Condemned(_) => true
    case Deleted(used) => used
  }

  // A netconn only moves on: it enters a slot once, leaves it once and is deleted once.
  function Phase(p: Place): nat {
    match p case Loose(_) => 0 case InSlot(_) => 1 case Condemned(_) => 2 case Deleted(_) => 3
  }

  ghost predicate Onward(was: seq<Netconn>, now: seq<Netconn>) {
    |was| <= |now| && forall c :: 0 <= c < |was| ==>
      && now[c].kind == was[c].kind && Phase(was[c].place) <= Phase(now[c].place)
      && (Phase(was[c].place) == Phase(now[c].place) ==> was[c].place == now[c].place)
  }

  // A slot that is held before and after keeps its netconn.
  ghost predicate KeepsHeld(was: seq<Sock>, held: seq<multiset<Ref>>, now: seq<Sock>, holding: seq<multiset<Ref>>) {
    && |was| == |now| == |held| == |holding|
    && forall s :: 0 <= s < |was| && held[s] != multiset{} && holding[s] != multiset{} ==> now[s].conn == was[s].conn
  }

  // fd_used of every slot is right, and everything fits together.
  ghost predicate Consistent(socks: seq<Sock>, holders: seq<multiset<Ref>>, conns: seq<Netconn>, closed: set<nat>) {
    && |holders| == |socks|
    && (forall s :: 0 <= s < |socks| ==> Counted(socks[s], holders[s]) && WillBeFreed(socks[s]))
    && Placed(socks, conns)
    && ClosedLeave(socks, conns, closed)
  }

  // ---------------------------------------------------------------- what a step does

  // What the threads share, and who holds and closed what.
  datatype State = State(socks: seq<Sock>, holders: seq<multiset<Ref>>, conns: seq<Netconn>, closed: set<nat>)

  // A thread takes the netconn out of its slot.
  function Taken(conns: seq<Netconn>, c: Option<nat>, t: nat): seq<Netconn> {
    if c.Some? && c.value < |conns| then conns[c.value := conns[c.value].(place := Condemned(t))] else conns
  }

  // The netconn in a slot, if there is one.
  function Inside(sock: Sock): set<nat> {
    if sock.conn.Some? then {sock.conn.value} else {}
  }

  // netconn_delete
  function DeleteNext(a: State, c: nat): State
    requires c < |a.conns|
  {
    a.(conns := a.conns[c := Netconn(a.conns[c].kind, Deleted(a.conns[c].place.Condemned?), 1)])
  }

  // One round of the loop of alloc_socket: a slot is taken if nobody holds it and it is empty.
  function AllocNext(a: State, i: nat, c: nat, t: nat): State
    requires i < |a.socks| == |a.holders| && c < |a.conns|
  {
    if a.socks[i].conn.None? && a.holders[i] == multiset{} then
      a.(socks := a.socks[i := Sock(Some(c), 1, No)], holders := a.holders[i := multiset{Ref(t, Some(c))}],
         conns := a.conns[c := a.conns[c].(place := InSlot(i))])
    else a
  }

  // sock_inc_used: a reference is granted if no free is pending.
  function TakeNext(a: State, s: nat, t: nat): State
    requires s < |a.socks| == |a.holders|
  {
    var more := a.holders[s] + multiset{Ref(t, None)};
    if a.socks[s].pending.No? then
      a.(holders := a.holders[s := more], socks := a.socks[s := a.socks[s].(used := |more|)])
    else a
  }

  // tryget_socket sees what is in the slot.
  function CheckNext(a: State, s: nat, r: Ref): State
    requires s < |a.socks| == |a.holders|
  {
    a.(holders := a.holders[s := a.holders[s] - multiset{r} + multiset{r.(seen := a.socks[s].conn)}])
  }

  // The last reference to a slot is given back, and the netconn taken out of it.
  function Emptied(a: State, s: nat, r: Ref): State
    requires s < |a.socks| == |a.holders|
  {
    a.(holders := a.holders[s := a.holders[s] - multiset{r}],
       socks := a.socks[s := a.socks[s].(conn := None, used := 0)],
       conns := Taken(a.conns, a.socks[s].conn, r.thread))
  }

  // free_socket_locked: with the last reference the netconn leaves the slot, otherwise freeing is left
  // pending.
  function FreeNext(a: State, s: nat, r: Ref, tcp: bool): State
    requires s < |a.socks| == |a.holders|
  {
    var left := a.holders[s] - multiset{r};
    var b :=
      if left == multiset{} then Emptied(a, s, r)
      else
        a.(holders := a.holders[s := left],
           socks := a.socks[s := a.socks[s].(used := |left|, pending := Free(tcp))]);
    b.(closed := a.closed + Inside(a.socks[s]))
  }

  // done_socket, the part under the lock: the last holder does what a close left pending.
  function DoneNext(a: State, s: nat, r: Ref): State
    requires s < |a.socks| == |a.holders|
  {
    var left := a.holders[s] - multiset{r};
    if left == multiset{} && a.socks[s].pending.Free? then Emptied(a, s, r)
    else a.(holders := a.holders[s := left], socks := a.socks[s := a.socks[s].(used := |left|)])
  }

  // Whether the code of the thread can take this step now.  A thread gives back a reference it holds;
  // lwip_close frees a slot only in which it saw a netconn, and deletes what it took out of a slot.
  predicate Possible(socks: seq<Sock>, holders: seq<multiset<Ref>>, conns: seq<Netconn>, step: Step) {
    match step
    case New(_, _) => true
    case TrySlot(t, c, s) => s < |socks| == |holders| && c < |conns| && conns[c].place == Loose(t)
    case NoSlot(t, c) => c < |conns| && conns[c].place == Loose(t)
    case Take(_, s) => s < |socks| == |holders| && |holders[s]| < 255
    case Check(r, s) => s < |socks| == |holders| && r in holders[s]
    case Done(r, s) => s < |socks| == |holders| && r in holders[s]
    case Close(r, s) => s < |socks| == |holders| && r in holders[s] && r.seen.Some?
    case Delete(t, c) => c < |conns| && conns[c].place == Condemned(t)
  }

  // What a step makes of the state, if the thread can take it.
  function Next(a: State, step: Step): State {
    if !Possible(a.socks, a.holders, a.conns, step) then a
    else
      match step
      case New(t, kind) => a.(conns := a.conns + [Netconn(kind, Loose(t), 0)])
      case TrySlot(t, c, s) => AllocNext(a, s, c, t)
      case NoSlot(_, c) => DeleteNext(a, c)
      case Take(t, s) => TakeNext(a, s, t)
      case Check(r, s) => CheckNext(a, s, r)
      case Done(r, s) => DoneNext(a, s, r)
      case Close(r, s) => FreeNext(a, s, r, r.seen.value < |a.conns| && a.conns[r.seen.value].kind == TCP)
      case Delete(_, c) => DeleteNext(a, c)
  }

  function After(a: State, steps: seq<Step>): State {
    if steps == [] then a else Next(After(a, steps[..|steps| - 1]), steps[|steps| - 1])
  }

  class Sockets {
    var socks: seq<Sock>                    // sockets
    var holders: seq<multiset<Ref>>         // the references the threads hold on each slot
    var conns: seq<Netconn>                 // every netconn ever created
    ghost var closed: set<nat>              // the netconns for which free_socket was called

    ghost predicate Valid()
      reads this
    {
      Consistent(socks, holders, conns, closed)
    }

    ghost function Now(): State
      reads this
    {
      State(socks, holders, conns, closed)
    }

    constructor (numSockets: nat)
      ensures Valid() && |socks| == numSockets && conns == [] && closed == {}
      ensures forall s :: 0 <= s < |socks| ==> socks[s].conn.None? && holders[s] == multiset{}
    {
      socks := seq(numSockets, s => Sock(None, 0, No));
      holders := seq(numSockets, s => multiset{});
      conns, closed := [], {};
    }

    // netconn_new
    method NewConn(t: nat, kind: NetconnType)
      requires Valid()
      modifies `conns
      ensures Valid() && Onward(old(conns), conns) && conns == old(conns) + [Netconn(kind, Loose(t), 0)]
    {
      conns := conns + [Netconn(kind, Loose(t), 0)];
    }

    // netconn_delete; it is never given a netconn that was deleted or is still in a slot.
    method NetconnDelete(c: nat)
      requires Valid() && c < |conns| && (conns[c].place.Loose? || conns[c].place.Condemned?)
      modifies `conns
      ensures Valid() && Onward(old(conns), conns)
      ensures Now() == DeleteNext(old(Now()), c)
      ensures |conns| == |old(conns)| && conns[c].deletes == 1
      ensures conns[c].place == Deleted(old(conns)[c].place.Condemned?)
    {
      conns := conns[c := conns[c].(place := Deleted(conns[c].place.Condemned?), deletes := conns[c].deletes + 1)];
    }

    // One round of the loop of alloc_socket: a slot is taken if nobody holds it and it is empty.
    method TryAlloc(i: nat, c: nat, t: nat) returns (ok: bool)
      requires Valid() && i < |socks| && c < |conns| && conns[c].place == Loose(t)
      modifies `socks, `holders, `conns
      ensures Valid() && Onward(old(conns), conns) && KeepsHeld(old(socks), old(holders), socks, holders)
      ensures ok <==> old(socks)[i].conn.None? && old(holders)[i] == multiset{}
      ensures Now() == AllocNext(old(Now()), i, c, t)
      ensures ok ==> socks[i] == Sock(Some(c), 1, No) && holders[i] == multiset{Ref(t, Some(c))}
                     && c < |conns| && conns[c].place == InSlot(i)
      ensures !ok ==> Now() == old(Now())
    {
      Slot(i);
      SlotFilled(socks, holders, conns, closed, i, c, t);
      hide Consistent;
      ok := false;
      if socks[i].conn.None? {
        if socks[i].used == 0 {
          socks := socks[i := Sock(Some(c), 1, No)];
          holders := holders[i := multiset{Ref(t, Some(c))}];
          conns := conns[c := conns[c].(place := InSlot(i))];
          ok := true;
        }
      }
      OneSlot(old(socks), old(holders), socks, holders, i);
    }

    // sock_inc_used; its assertion demands fewer than 256 references.
    method SockIncUsed(s: nat, t: nat) returns (ok: bool)
      requires Valid() && s < |socks| && |holders[s]| < 255
      modifies `socks, `holders
      ensures Valid() && KeepsHeld(old(socks), old(holders), socks, holders)
      ensures ok <==> old(socks)[s].pending.No?
      ensures Now() == TakeNext(old(Now()), s, t)
      ensures ok ==> holders[s] == old(holders)[s] + multiset{Ref(t, None)} && socks[s].used == old(socks)[s].used + 1
      ensures !ok ==> Now() == old(Now())
    {
      Slot(s);
      RefTaken(socks, holders, conns, closed, s, t);
      hide Consistent;
      ok := socks[s].pending.No?;
      if ok {
        socks := socks[s := socks[s].(used := socks[s].used + 1)];
        holders := holders[s := holders[s] + multiset{Ref(t, None)}];
      }
      OneSlot(old(socks), old(holders), socks, holders, s);
    }

    // tryget_socket: whether there is a netconn in the slot just taken
    method CheckConn(s: nat, r: Ref) returns (conn: Option<nat>)
      requires Valid() && s < |socks| && r in holders[s]
      modifies `holders
      ensures Valid() && KeepsHeld(socks, old(holders), socks, holders)
      ensures conn == socks[s].conn && Now() == CheckNext(old(Now()), s, r)
      ensures holders[s] == old(holders)[s] - multiset{r} + multiset{Ref(r.thread, conn)}
    {
      Slot(s);
      conn := socks[s].conn;
      holders := holders[s := holders[s] - multiset{r} + multiset{r.(seen := conn)}];
      OneSlot(socks, old(holders), socks, holders, s);
    }

    // free_socket_locked, for the last reference r of its thread to the slot
    method FreeSocketLocked(s: nat, r: Ref, tcp: bool) returns (conn: Option<nat>)
      requires Valid() && s < |socks| && r in holders[s]
      requires socks[s].conn.Some? ==> tcp == (conns[socks[s].conn.value].kind == TCP)
      modifies this
      ensures Valid() && Onward(old(conns), conns) && KeepsHeld(old(socks), old(holders), socks, holders)
      ensures Now() == FreeNext(old(Now()), s, r, tcp)
      ensures holders[s] == old(holders)[s] - multiset{r}
      ensures holders[s] != multiset{} ==>
                socks[s].conn == old(socks)[s].conn && socks[s].pending == Free(tcp) && conns == old(conns)
      ensures holders[s] == multiset{} ==>
                && socks[s].conn.None?
                && (conn.Some? ==> conn.value < |conns| && conns[conn.value].place == Condemned(r.thread))
      ensures conn == if holders[s] == multiset{} then old(socks)[s].conn else None
    {
      Slot(s);
      OneLess(socks[s], holders[s], r);
      FreeDelayed(socks, holders, conns, closed, s, r, tcp);
      FreeDone(socks, holders, conns, closed, s, r);
      hide Consistent, Counted, Onward, Taken, Inside, KeepsHeld;
      conn := None;
      closed := closed + Inside(socks[s]);
      holders := holders[s := holders[s] - multiset{r}];
      var sock := socks[s];
      sock := sock.(used := sock.used - 1);
      if sock.used > 0 {
        sock := sock.(pending := Free(tcp));
      } else {
        conn, sock := sock.conn, sock.(conn := None);
        conns := Taken(conns, conn, r.thread);
      }
      socks := socks[s := sock];
      OneSlot(old(socks), old(holders), socks, holders, s);
    }

    // done_socket, the part under the lock
    method DoneSocket(s: nat, r: Ref) returns (conn: Option<nat>, tcp: bool)
      requires Valid() && s < |socks| && r in holders[s]
      modifies this
      ensures Valid() && Onward(old(conns), conns) && KeepsHeld(old(socks), old(holders), socks, holders)
      ensures Now() == DoneNext(old(Now()), s, r)
      ensures holders[s] == old(holders)[s] - multiset{r}
      ensures socks[s].conn
           == if holders[s] == multiset{} && old(socks)[s].pending.Free? then None else old(socks)[s].conn
      ensures conn == if holders[s] == multiset{} && old(socks)[s].pending.Free? then old(socks)[s].conn else None
      ensures conn.Some? ==> conn.value < |conns| && tcp == (conns[conn.value].kind == TCP)
    {
      conn, tcp := None, false;
      Slot(s);
      PendingTcp(s);
      OneLess(socks[s], holders[s], r);
      RefGiven(socks, holders, conns, closed, s, r);
      NothingMoves(conns);
      hide Consistent, Counted, Onward, Taken, Inside;
      socks := socks[s := socks[s].(used := socks[s].used - 1)];
      if socks[s].used == 0 && socks[s].pending.Free? {
        socks := socks[s := socks[s].(used := 1)];
        assert socks == old(socks);
        tcp := socks[s].pending.tcp;
        conn := FreeSocketLocked(s, r, tcp);
        TakenKeepsKind(old(conns), conn, r.thread);
      } else {
        holders := holders[s := holders[s] - multiset{r}];
        OneSlot(old(socks), old(holders), socks, holders, s);
      }
    }

    lemma Slot(s: nat)
      requires Valid() && s < |socks|
      ensures |holders| == |socks| && Counted(socks[s], holders[s])
      ensures socks[s].used == 0 <==> holders[s] == multiset{}
    {
      assert Counted(socks[s], holders[s]);
    }

    lemma Seen(s: nat, r: Ref)
      requires Valid() && s < |socks| && r in holders[s] && r.seen.Some?
      ensures socks[s].conn == r.seen && r.seen.value < |conns|
    {
      assert Counted(socks[s], holders[s]);
    }

    lemma PendingTcp(s: nat)
      requires Valid() && s < |socks|
      ensures socks[s].conn.Some? ==> socks[s].conn.value < |conns|
      ensures socks[s].conn.Some? && socks[s].pending.Free? ==>
                socks[s].pending.tcp == (conns[socks[s].conn.value].kind == TCP) && Inside(socks[s]) <= closed
    {
    }

    // ---------------------------------------------------------------- any interleaving

    predicate Enabled(step: Step)
      reads `socks, `holders, `conns
    {
      Possible(socks, holders, conns, step)
    }

    // One step, if the thread can take it.
    method Perform(step: Step)
      requires Valid()
      modifies this
      ensures Valid() && Kept(old(Now()), Now()) && Now() == Next(old(Now()), step)
      ensures closed == old(closed) + if old(Enabled(step)) && step.Close? then {step.ref.seen.value} else {}
    {
      KeptByNext(Now(), step);
      ClosedByNext(Now(), step);
      hide Consistent, Kept, Next;
      TakeStep(step);
    }

    method TakeStep(step: Step)
      requires Valid()
      modifies this
      ensures Valid() && Now() == Next(old(Now()), step)
    {
      hide Consistent, KeepsHeld, Onward, Taken, Counted, Placed, Inside;
      hide AllocNext, DeleteNext, TakeNext, CheckNext, DoneNext, FreeNext;
      if !Enabled(step) {
        return;
      }
      match step {
        case New(t, kind) => NewConn(t, kind);
        case TrySlot(t, c, s) => var ok := TryAlloc(s, c, t);
        case NoSlot(t, c) => NetconnDelete(c);
        case Take(t, s) => var ok := SockIncUsed(s, t);
        case Check(r, s) => var conn := CheckConn(s, r);
        case Done(r, s) => var conn, tcp := DoneSocket(s, r);
        case Close(r, s) =>
          Seen(s, r);
          var conn := FreeSocketLocked(s, r, conns[r.seen.value].kind == TCP);
        case Delete(t, c) => NetconnDelete(c);
      }
    }
  }

  // Netconns only move on, and a slot that is held before and after keeps its netconn.
  ghost predicate Kept(a: State, b: State) {
    Onward(a.conns, b.conns) && KeepsHeld(a.socks, a.holders, b.socks, b.holders)
  }

  ghost predicate Fits(a: State) {
    Consistent(a.socks, a.holders, a.conns, a.closed)
  }

  lemma KeptByAlloc(a: State, i: nat, c: nat, t: nat)
    requires Fits(a) && i < |a.socks| && c < |a.conns| && a.conns[c].place.Loose?
    ensures Kept(a, AllocNext(a, i, c, t))
  {
    var b := AllocNext(a, i, c, t);
    OneSlot(a.socks, a.holders, b.socks, b.holders, i);
  }

  lemma KeptByTake(a: State, s: nat, t: nat)
    requires Fits(a) && s < |a.socks|
    ensures Kept(a, TakeNext(a, s, t))
  {
    var b := TakeNext(a, s, t);
    OneSlot(a.socks, a.holders, b.socks, b.holders, s);
  }

  lemma KeptByCheck(a: State, s: nat, r: Ref)
    requires Fits(a) && s < |a.socks|
    ensures Kept(a, CheckNext(a, s, r))
  {
    var b := CheckNext(a, s, r);
    OneSlot(a.socks, a.holders, b.socks, b.holders, s);
  }

  lemma KeptByFree(a: State, s: nat, r: Ref, tcp: bool)
    requires Fits(a) && s < |a.socks| && r in a.holders[s]
    ensures Kept(a, FreeNext(a, s, r, tcp))
  {
    var b := FreeNext(a, s, r, tcp);
    assert Counted(a.socks[s], a.holders[s]);
    OneLess(a.socks[s], a.holders[s], r);
    FreeDone(a.socks, a.holders, a.conns, a.closed, s, r);
    NothingMoves(a.conns);
    hide Consistent, Counted, Onward, Taken;
    OneSlot(a.socks, a.holders, b.socks, b.holders, s);
  }

  lemma KeptByDone(a: State, s: nat, r: Ref)
    requires Fits(a) && s < |a.socks| && r in a.holders[s]
    ensures Kept(a, DoneNext(a, s, r))
  {
    var b := DoneNext(a, s, r);
    assert Counted(a.socks[s], a.holders[s]);
    OneLess(a.socks[s], a.holders[s], r);
    FreeDone(a.socks, a.holders, a.conns, a.closed, s, r);
    NothingMoves(a.conns);
    hide Consistent, Counted, Onward, Taken;
    OneSlot(a.socks, a.holders, b.socks, b.holders, s);
  }

  lemma KeptByNew(a: State, conn: Netconn)
    requires Fits(a)
    ensures Kept(a, a.(conns := a.conns + [conn])) && Kept(a, a)
  {
  }

  lemma KeptByDelete(a: State, c: nat)
    requires Fits(a) && c < |a.conns| && (a.conns[c].place.Loose? || a.conns[c].place.Condemned?)
    ensures Kept(a, DeleteNext(a, c))
  {
  }

  // Every step keeps that.
  lemma KeptByNext(a: State, step: Step)
    requires Fits(a)
    ensures Kept(a, Next(a, step))
  {
    KeptByNew(a, Netconn(TCP, Loose(0), 0));
    if Possible(a.socks, a.holders, a.conns, step) {
      hide Fits, Kept, AllocNext, DeleteNext, TakeNext, CheckNext, DoneNext, FreeNext;
      match step {
        case New(t, kind) => KeptByNew(a, Netconn(kind, Loose(t), 0));
        case TrySlot(t, c, s) => KeptByAlloc(a, s, c, t);
        case NoSlot(_, c) => KeptByDelete(a, c);
        case Take(t, s) => KeptByTake(a, s, t);
        case Check(r, s) => KeptByCheck(a, s, r);
        case Done(r, s) => KeptByDone(a, s, r);
        case Close(r, s) => KeptByFree(a, s, r, r.seen.value < |a.conns| && a.conns[r.seen.value].kind == TCP);
        case Delete(_, c) => KeptByDelete(a, c);
      }
    }
  }

  // Exactly the calls of free_socket close a netconn, the one seen in the slot.
  lemma ClosedByNext(a: State, step: Step)
    requires Fits(a)
    ensures Next(a, step).closed
         == a.closed + if Possible(a.socks, a.holders, a.conns, step) && step.Close? then {step.ref.seen.value} else {}
  {
    if Possible(a.socks, a.holders, a.conns, step) && step.Close? {
      assert Counted(a.socks[step.slot], a.holders[step.slot]);
    }
    hide Fits, Consistent, Taken;
  }

  lemma OnwardTwice(a: seq<Netconn>, b: seq<Netconn>, c: seq<Netconn>)
    requires Onward(a, b) && Onward(b, c)
    ensures Onward(a, c)
  {
  }

  lemma NothingMoves(conns: seq<Netconn>)
    ensures Onward(conns, conns)
  {
  }

  lemma OneSlot(was: seq<Sock>, held: seq<multiset<Ref>>, now: seq<Sock>, holding: seq<multiset<Ref>>, s: nat)
    requires |was| == |held| == |now| == |holding| && s < |was|
    requires now == was[s := now[s]] && holding == held[s := holding[s]]
    requires held[s] == multiset{} || holding[s] == multiset{} || now[s].conn == was[s].conn
    ensures KeepsHeld(was, held, now, holding)
  {
  }

  // ---------------------------------------------------------------- what each step keeps

  lemma TakenKeepsKind(conns: seq<Netconn>, c: Option<nat>, t: nat)
    requires c.Some? ==> c.value < |conns|
    ensures |Taken(conns, c, t)| == |conns|
    ensures c.Some? ==> Taken(conns, c, t)[c.value].kind == conns[c.value].kind
  {
  }

  lemma OneLess(sock: Sock, refs: multiset<Ref>, r: Ref)
    requires Counted(sock, refs) && r in refs
    ensures 0 < sock.used && |refs - multiset{r}| == sock.used - 1
    ensures refs - multiset{r} == multiset{} <==> sock.used == 1
  {
  }

  lemma SlotFilled(socks: seq<Sock>, holders: seq<multiset<Ref>>, conns: seq<Netconn>, closed: set<nat>,
                   s: nat, c: nat, t: nat)
    requires Consistent(socks, holders, conns, closed) && s < |socks|
    requires c < |conns| && conns[c].place.Loose?
    ensures socks[s].conn.None? ==>
              Consistent(socks[s := Sock(Some(c), 1, No)], holders[s := multiset{Ref(t, Some(c))}],
                         conns[c := conns[c].(place := InSlot(s))], closed)
  {
  }

  lemma RefTaken(socks: seq<Sock>, holders: seq<multiset<Ref>>, conns: seq<Netconn>, closed: set<nat>, s: nat, t: nat)
    requires Consistent(socks, holders, conns, closed) && s < |socks|
    ensures Consistent(socks[s := socks[s].(used := socks[s].used + 1)],
                       holders[s := holders[s] + multiset{Ref(t, None)}], conns, closed)
  {
  }

  lemma RefGiven(socks: seq<Sock>, holders: seq<multiset<Ref>>, conns: seq<Netconn>, closed: set<nat>, s: nat, r: Ref)
    requires Consistent(socks, holders, conns, closed) && s < |socks| && r in holders[s]
    ensures 0 < socks[s].used
    ensures socks[s].used > 1 || socks[s].pending.No? ==>
              Consistent(socks[s := socks[s].(used := socks[s].used - 1)], holders[s := holders[s] - multiset{r}],
                         conns, closed)
  {
    OneLess(socks[s], holders[s], r);
  }

  // A close while others hold references: the last of them will take the netconn out.
  lemma FreeDelayed(socks: seq<Sock>, holders: seq<multiset<Ref>>, conns: seq<Netconn>, closed: set<nat>,
                    s: nat, r: Ref, tcp: bool)
    requires Consistent(socks, holders, conns, closed) && s < |socks| && r in holders[s]
    requires socks[s].conn.Some? ==> tcp == (conns[socks[s].conn.value].kind == TCP)
    ensures 0 < socks[s].used && Onward(conns, conns)
    ensures socks[s].used > 1 ==>
              Consistent(socks[s := socks[s].(used := socks[s].used - 1, pending := Free(tcp))],
                         holders[s := holders[s] - multiset{r}], conns, closed + Inside(socks[s]))
  {
    OneLess(socks[s], holders[s], r);
  }

  // The last reference is given back.
  lemma FreeDone(socks: seq<Sock>, holders: seq<multiset<Ref>>, conns: seq<Netconn>, closed: set<nat>, s: nat, r: Ref)
    requires Consistent(socks, holders, conns, closed) && s < |socks| && r in holders[s]
    ensures socks[s].used == 1 ==>
              && Onward(conns, Taken(conns, socks[s].conn, r.thread))
              && Consistent(socks[s := socks[s].(conn := None, used := 0)], holders[s := holders[s] - multiset{r}],
                            Taken(conns, socks[s].conn, r.thread), closed + Inside(socks[s]))
  {
    OneLess(socks[s], holders[s], r);
  }
}
