// sockets.c: lwip_select and event_callback as threads that interleave between sections under
// SYS_ARCH_PROTECT (no core locking).
module Select {
  import opened Wrappers
  import opened SelectList

  // The largest value of SELWAIT_T, an u8_t by default
  const SELWAIT_MAX: nat := 255

  datatype Event = RCVPLUS | RCVMINUS | SENDPLUS | SENDMINUS | ERROR

  function Happened(sock: Sock, evt: Event): Sock {
    match evt
    case RCVPLUS => sock.(rcvevent := sock.rcvevent + 1)
    case RCVMINUS => sock.(rcvevent := sock.rcvevent - 1)
    case SENDPLUS => sock.(sendevent := true)
    case SENDMINUS => sock.(sendevent := false)
    case ERROR => sock.(errevent := true)
  }

  // The walk that an event on socket s starts, once it has happened.
  function NewWalk(s: nat, sock: Sock): Walk {
    Walk(s, Ready(sock, Recv), Ready(sock, Send), Ready(sock, Error), Start)
  }

  // The events after which the waiters are checked.
  predicate BecomesReady(sock: Sock, evt: Event) {
    match evt
    case RCVPLUS => sock.rcvevent <= 0
    case SENDPLUS => !sock.sendevent
    case ERROR => true
    case _ => false
  }

  // select_waiting of socket s is changed by d.
  function Waiting(socks: seq<Sock>, s: nat, d: int): seq<Sock>
    requires s < |socks| && 0 <= socks[s].waiting + d
  {
    socks[s := socks[s].(waiting := socks[s].waiting + d)]
  }

  // A section of some thread: lwip_select is called, or goes on (valid says whether the next socket is
  // open, timeout whether its time is over); an event callback begins, or goes on with its walk.
  datatype Step =
    | Call(readset: set<nat>, writeset: set<nat>, exceptset: set<nat>, max: nat)
    | GoOn(w: nat, valid: bool, timeout: bool)
    | Happens(s: nat, evt: Event)
    | WalkStep(k: nat)

  // ---------------------------------------------------------------- what a section does

  // What the threads share.
  datatype State = State(socks: seq<Sock>, cbs: seq<Cb>, walks: seq<Walk>, list: seq<nat>, ctr: nat)

  function NewCb(readset: set<nat>, writeset: set<nat>, exceptset: set<nat>, max: nat): Cb {
    Cb(readset, writeset, exceptset, max, None, None, false, 0, Inc(0))
  }

  // lwip_link_select_cb: a new entry is in front of the list.
  ghost predicate CallStep(a: State, cb: Cb, b: State) {
    && b == a.(cbs := b.cbs, list := [|a.cbs|] + a.list, ctr := a.ctr + 1)
    && PointersOnly(a.cbs + [cb], b.cbs)
  }

  // lwip_unlink_select_cb: exactly the entry leaves the list.
  ghost predicate LeaveStep(a: State, w: nat, b: State)
    requires w < |a.cbs|
  {
    && b == a.(cbs := b.cbs, list := b.list, ctr := a.ctr + 1)
    && PointersOnly(a.cbs[w := a.cbs[w].(phase := Gone)], b.cbs)
    && exists i :: 0 <= i < |a.list| && a.list[i] == w && b.list == Without(a.list, i)
  }

  // Call w of lwip_select is in another phase.
  function InPhase(a: State, w: nat, p: Phase): State
    requires w < |a.cbs|
  {
    a.(cbs := a.cbs[w := a.cbs[w].(phase := p)])
  }

  // One round of the loop that increments select_waiting; valid says that the socket is open.  The
  // counters are taken back if it is not, or if its counter would become zero.
  function IncNext(a: State, w: nat, valid: bool): State
    requires w < |a.cbs| && a.cbs[w].phase.Inc?
  {
    var cb, i := a.cbs[w], a.cbs[w].phase.i;
    if i == cb.max then InPhase(a, w, Rescan(0, false))
    else if !WatchesAny(cb, i) then InPhase(a, w, Inc(i + 1))
    else if !valid || i >= |a.socks| || a.socks[i].waiting == SELWAIT_MAX then InPhase(a, w, Dec(0, i))
    else InPhase(a, w, Inc(i + 1)).(socks := Waiting(a.socks, i, 1))
  }

  // One round of lwip_selscan with the entry on the list, and its end: the call waits exactly if it found
  // nothing ready.
  ghost function RescanNext(a: State, w: nat, valid: bool): State
    requires w < |a.cbs| && a.cbs[w].phase.Rescan?
  {
    var cb, i := a.cbs[w], a.cbs[w].phase.i;
    if i == cb.max then InPhase(a, w, if cb.phase.ready then Dec(0, i) else Parked)
    else if WatchesAny(cb, i) && !valid then InPhase(a, w, Dec(0, cb.max))
    else
      var ready := i < |a.socks| && exists b :: Watches(cb, i, b) && Ready(a.socks[i], b);
      InPhase(a, w, Rescan(i + 1, cb.phase.ready || ready))
  }

  // One round of the loop that decrements select_waiting.
  function DecNext(a: State, w: nat, valid: bool): State
    requires w < |a.cbs| && a.cbs[w].phase.Dec?
  {
    var cb, i := a.cbs[w], a.cbs[w].phase.i;
    var b := InPhase(a, w, Dec(i + 1, cb.phase.limit));
    if WatchesAny(cb, i) && valid && i < |a.socks| && 0 < a.socks[i].waiting then b.(socks := Waiting(a.socks, i, -1))
    else b
  }

  // event_callback up to its walk of the list
  function EventNext(a: State, s: nat, evt: Event): State
    requires s < |a.socks|
  {
    var sock := Happened(a.socks[s], evt);
    a.(socks := a.socks[s := sock],
       walks := a.walks + if BecomesReady(a.socks[s], evt) && 0 < sock.waiting then [NewWalk(s, sock)] else [])
  }

  // The entry that a walk looks at next: the first one if the list has changed, otherwise the one behind
  // the entry it looked at last.
  ghost function NextEntry(walk: Walk, list: seq<nat>, ctr: nat): Option<nat> {
    var rest := if walk.place.At? && walk.place.last == ctr then After(list, walk.place.node) else list;
    if rest == [] then None else Some(rest[0])
  }

  // One section of select_check_waiters
  ghost function WalkNext(a: State, k: nat): State
    requires k < |a.walks|
  {
    var walk := a.walks[k];
    match NextEntry(walk, a.list, a.ctr)
    case None => a.(walks := a.walks[k := walk.(place := Over)])
    case Some(x) =>
      if x >= |a.cbs| then a
      else a.(walks := a.walks[k := walk.(place := At(x, a.ctr))], cbs := a.cbs[x := AfterLook(a.cbs[x], walk)])
  }

  // What a walk does to an entry it looks at.
  ghost function AfterLook(was: Cb, walk: Walk): Cb {
    if !was.signalled && exists b :: InSet(was, walk.s, b) && Has(walk, b)
    then was.(signalled := true, signals := was.signals + 1) else was
  }

  // What a step does, if the thread can take it.
  ghost predicate Stepped(a: State, step: Step, b: State) {
    match step
    case Call(readset, writeset, exceptset, max) =>
      if max <= |a.socks| then CallStep(a, NewCb(readset, writeset, exceptset, max), b) else b == a
    case GoOn(w, valid, timeout) => if w < |a.cbs| then WentOn(a, w, valid, timeout, b) else b == a
    case Happens(s, evt) => b == if s < |a.socks| then EventNext(a, s, evt) else a
    case WalkStep(k) => b == if k < |a.walks| && !a.walks[k].place.Over? then WalkNext(a, k) else a
  }

  // The same for call w of lwip_select.
  ghost predicate WentOn(a: State, w: nat, valid: bool, timeout: bool, b: State)
    requires w < |a.cbs|
  {
    match a.cbs[w].phase
    case Inc(_) => b == IncNext(a, w, valid)
    case Rescan(_, _) => b == RescanNext(a, w, valid)
    case Parked => b == if 0 < a.cbs[w].signals || timeout then InPhase(a, w, Dec(0, a.cbs[w].max)) else a
    case Dec(i, limit) =>
      if i < limit then b == DecNext(a, w, valid) else if i == limit then LeaveStep(a, w, b) else b == a
    case Gone => b == a
  }

  // What holds in every state.
  ghost predicate Sound(a: State) {
    && NoDup(a.list)
    && Phases(a.cbs, a.list, |a.socks|)
    && Counts(a.cbs, a.socks)
    && GoodWalks(a.walks, a.list, a.ctr)
    && NoneLost(a.cbs, a.socks, a.walks, a.list, a.ctr)
  }

  class Selects {
    var socks: seq<Sock>        // sockets
    var cbs: seq<Cb>            // the select_cb of every call of lwip_select so far
    var head: Option<nat>       // select_cb_list
    var ctr: nat                // select_cb_ctr
    var walks: seq<Walk>        // every call of select_check_waiters so far
    ghost var list: seq<nat>    // the entries on select_cb_list, in order

    ghost predicate Valid()
      reads this
    {
      && Linked(cbs, head, list)
      && Phases(cbs, list, |socks|)
      && Counts(cbs, socks)
      && GoodWalks(walks, list, ctr)
      && NoneLost(cbs, socks, walks, list, ctr)
    }

    ghost function Now(): State
      reads `socks, `cbs, `walks, `list, `ctr
    {
      State(socks, cbs, walks, list, ctr)
    }

    // No lost wake-up: a call that waits for its semaphore, which was not signalled, has no ready
    // socket in its sets, except one whose event callback has not finished its walk of the list; and
    // that walk has still to look at the entry of the call.
    lemma NoLostWakeUp(w: nat, s: nat, b: Bit) returns (k: nat)
      requires Valid() && w < |cbs| && cbs[w].phase == Parked && cbs[w].signals == 0
      requires s < |socks| && Watches(cbs[w], s, b) && Ready(socks[s], b)
      ensures k < |walks| && walks[k].s == s && Has(walks[k], b) && !walks[k].place.Over?
      ensures ToVisit(walks[k], list, ctr, w)
    {
      assert Exposed(cbs[w], s, b);
      assert Owed(walks, list, ctr, w, s, b);
      k :| k < |walks| && Owes(walks[k], list, ctr, w, s, b);
    }

    // So once all walks are over, nobody waits in vain.
    lemma QuietMeansNotReady(w: nat, s: nat, b: Bit)
      requires Valid() && (forall k :: 0 <= k < |walks| ==> walks[k].place.Over?)
      requires w < |cbs| && cbs[w].phase == Parked && s < |socks| && Watches(cbs[w], s, b) && Ready(socks[s], b)
      ensures cbs[w].signals == 1
    {
      if cbs[w].signals == 0 {
        var k := NoLostWakeUp(w, s, b);
      }
    }

    constructor (numSockets: nat)
      ensures Valid() && Now() == State(seq(numSockets, s => Sock(0, false, false, 0)), [], [], [], 0)
    {
      socks := seq(numSockets, s => Sock(0, false, false, 0));
      cbs, head, ctr, walks, list := [], None, 0, [], [];
    }

    // ---------------------------------------------------------------- the list

    // The pointers of lwip_link_select_cb: the entry goes to the front.
    method Push(w: nat)
      requires Linked(cbs, head, list) && w < |cbs| && w !in list && cbs[w].prev == None
      modifies `cbs, `head, `list
      ensures Linked(cbs, head, list) && list == [w] + old(list) && PointersOnly(old(cbs), cbs)
    {
      cbs := cbs[w := cbs[w].(next := head)];
      if head.Some? {
        cbs := cbs[head.value := cbs[head.value].(prev := Some(w))];
      }
      head := Some(w);
      list := [w] + list;
    }

    // The pointers of lwip_unlink_select_cb: the neighbours of the i-th entry are joined.
    method Unchain(w: nat, ghost i: nat)
      requires Linked(cbs, head, list) && i < |list| && list[i] == w
      modifies `cbs, `head, `list
      ensures Linked(cbs, head, list) && list == Without(old(list), i) && PointersOnly(old(cbs), cbs)
    {
      hide Linked, Without;
      Neighbours(cbs, head, list, i);
      if cbs[w].next.Some? {
        var n := cbs[w].next.value;
        cbs := cbs[n := cbs[n].(prev := cbs[w].prev)];
      }
      if head == Some(w) {
        head := cbs[w].next;
      } else {
        var p := cbs[w].prev.value;
        cbs := cbs[p := cbs[p].(next := cbs[w].next)];
      }
      Joined(old(cbs), cbs, old(head), old(list), i);
      list := Without(list, i);
    }

    // lwip_link_select_cb, for an entry just set to zero
    method LinkSelectCb(readset: set<nat>, writeset: set<nat>, exceptset: set<nat>, max: nat) returns (w: nat)
      requires Valid() && max <= |socks|
      modifies `cbs, `head, `ctr, `list
      ensures Valid() && w == |old(cbs)|
      ensures CallStep(old(Now()), NewCb(readset, writeset, exceptset, max), Now())
    {
      hide Counts, GoodWalks, NoneLost, Exposed, Linked;
      w := |cbs|;
      cbs := cbs + [NewCb(readset, writeset, exceptset, max)];
      LinkedSame(old(cbs), cbs, head, list);
      Push(w);
      ctr := ctr + 1;
      Added(old(cbs), cbs, socks, walks, old(list), old(ctr));
    }

    // lwip_unlink_select_cb
    method UnlinkSelectCb(w: nat)
      requires Valid() && w < |cbs| && cbs[w].phase.Dec? && cbs[w].phase.i == cbs[w].phase.limit
      modifies `cbs, `head, `ctr, `list
      ensures Valid() && LeaveStep(old(Now()), w, Now())
      ensures forall x :: x in list <==> x in old(list) && x != w
    {
      hide Counts, GoodWalks, NoneLost, Exposed, Linked, Without;
      ghost var i := IndexOf(list, w);
      ListIsNoDup();
      WithoutIs(list, i);
      Unchain(w, i);
      ghost var between := cbs;
      cbs := cbs[w := cbs[w].(phase := Gone)];
      LinkedSame(between, cbs, head, list);
      ctr := ctr + 1;
      Left(old(cbs), cbs, socks, walks, old(list), list, old(ctr), w);
    }

    // ---------------------------------------------------------------- the steps of lwip_select

    // A call goes on, holding and relying on no more than its counters and its scan allow.
    method SetPhase(w: nat, p: Phase)
      requires Valid() && w < |cbs| && cbs[w].phase != Gone && p != Gone
      requires GoodCb(cbs[w].(phase := p), |socks|)
      requires forall s :: 0 <= s < |socks| && Holds(cbs[w].(phase := p), s) ==> Holds(cbs[w], s)
      requires forall s, b :: 0 <= s < |socks| && Exposed(cbs[w].(phase := p), s, b) && Ready(socks[s], b) ==>
                 Exposed(cbs[w], s, b)
      modifies `cbs
      ensures Valid() && Now() == InPhase(old(Now()), w, p)
    {
      hide Counts, GoodWalks, NoneLost, Linked;
      var cb := cbs[w].(phase := p);
      CountsFewer(cbs, socks, w, cb);
      LessExposed(cbs, socks, walks, list, ctr, w, cb);
      LinkedSame(cbs, cbs[w := cb], head, list);
      cbs := cbs[w := cb];
    }

    // One round of the loop that increments select_waiting; valid says that the socket is open.
    method IncWaiting(w: nat, valid: bool)
      requires Valid() && w < |cbs| && cbs[w].phase.Inc?
      modifies `cbs, `socks
      ensures Valid() && Now() == IncNext(old(Now()), w, valid)
    {
      var cb, i := cbs[w], cbs[w].phase.i;
      if i == cb.max {
        SetPhase(w, Rescan(0, false));
      } else if !WatchesAny(cb, i) {
        SetPhase(w, Inc(i + 1));
      } else if !valid || socks[i].waiting == SELWAIT_MAX {
        // not a valid socket, or the incremented counter is zero: the counters up to here are taken back
        SetPhase(w, Dec(0, i));
      } else {
        MoreHolds(cb);
        CountsMore(cbs, socks, w, cb.(phase := Inc(i + 1)), i, socks[i].(waiting := socks[i].waiting + 1));
        SetCounter(w, Inc(i + 1), i, 1);
      }
    }

    // As SetPhase, with select_waiting of socket i changed by d.
    method SetCounter(w: nat, p: Phase, i: nat, d: int)
      requires Valid() && w < |cbs| && cbs[w].phase != Gone && (p.Inc? || p.Dec?)
      requires GoodCb(cbs[w].(phase := p), |socks|) && i < |socks| && 0 <= socks[i].waiting + d
      requires Counts(cbs[w := cbs[w].(phase := p)], Waiting(socks, i, d))
      modifies `cbs, `socks
      ensures Valid() && Now() == InPhase(old(Now()), w, p).(socks := Waiting(old(socks), i, d))
    {
      hide Counts, GoodWalks, NoneLost, Linked;
      var sock, next := socks[i].(waiting := socks[i].waiting + d), cbs[w].(phase := p);
      LessReady(cbs, socks, walks, list, ctr, i, sock);
      LessExposed(cbs, socks[i := sock], walks, list, ctr, w, next);
      LinkedSame(cbs, cbs[w := next], head, list);
      socks, cbs := socks[i := sock], cbs[w := next];
    }

    // One round of lwip_selscan with the entry on the list, and its end.
    method RescanSocket(w: nat, valid: bool)
      requires Valid() && w < |cbs| && cbs[w].phase.Rescan?
      modifies `cbs
      ensures Valid() && Now() == RescanNext(old(Now()), w, valid)
    {
      var cb, i := cbs[w], cbs[w].phase.i;
      var next;
      LookedAt(w);
      if i == cb.max {
        next := if cb.phase.ready then Dec(0, cb.max) else Parked;
      } else if !WatchesAny(cb, i) {
        next := Rescan(i + 1, cb.phase.ready);
      } else if !valid {
        next := Dec(0, cb.max);
      } else {
        var readable := Watches(cb, i, Recv) && Ready(socks[i], Recv);
        var writable := Watches(cb, i, Send) && Ready(socks[i], Send);
        var failed := Watches(cb, i, Error) && Ready(socks[i], Error);
        next := Rescan(i + 1, cb.phase.ready || readable || writable || failed);
      }
      if i < cb.max {
        AnyReady(cb, i, socks[i]);
      }
      hide Valid, Holds, Exposed, GoodCb, Watches, WatchesAny;
      ScanAllows(Now(), w, valid, next);
      SetPhase(w, next);
    }

    // sys_arch_sem_wait returns, as the semaphore was signalled or the time is over.
    method Wake(w: nat, timeout: bool)
      requires Valid() && w < |cbs| && cbs[w].phase.Parked? && (0 < cbs[w].signals || timeout)
      modifies `cbs
      ensures Valid() && Now() == InPhase(old(Now()), w, Dec(0, old(cbs)[w].max))
    {
      SetPhase(w, Dec(0, cbs[w].max));
    }

    // One round of the loop that decrements select_waiting.
    method DecWaiting(w: nat, valid: bool)
      requires Valid() && w < |cbs| && cbs[w].phase.Dec? && cbs[w].phase.i < cbs[w].phase.limit
      modifies `cbs, `socks
      ensures Valid() && Now() == DecNext(old(Now()), w, valid)
      // its assertion that the counter is positive holds
      ensures var i := old(cbs)[w].phase.i;
        WatchesAny(old(cbs)[w], i) ==> i < |old(socks)| && 0 < old(socks)[i].waiting
    {
      hide Valid, Holds, GoodCb, Exposed, WatchesAny, Ready, Counts;
      var cb, i := cbs[w], cbs[w].phase.i;
      var next := Dec(i + 1, cb.phase.limit);
      LookedAt(w);
      FewerHolds(cb);
      if WatchesAny(cb, i) {
        LetGo(w, i, cb.(phase := next));
        if valid {
          SetCounter(w, next, i, -1);
          return;
        }
      }
      SetPhase(w, next);
    }

    lemma LetGo(w: nat, i: nat, next: Cb)
      requires Valid() && w < |cbs| && i < |socks| && Holds(cbs[w], i)
      requires forall t :: Holds(next, t) <==> t != i && Holds(cbs[w], t)
      ensures 0 < socks[i].waiting && Counts(cbs[w := next], Waiting(socks, i, -1))
    {
      HolderCounts(cbs, socks, w, i);
      CountsLess(cbs, socks, w, next, i, socks[i].(waiting := socks[i].waiting - 1));
    }

    // ---------------------------------------------------------------- event_callback

    // event_callback up to its walk of the list
    method EventCallback(s: nat, evt: Event)
      requires Valid() && s < |socks|
      modifies `socks, `walks
      ensures Valid() && Now() == EventNext(old(Now()), s, evt)
    {
      hide Counts, GoodWalks, NoneLost, Linked;
      var sock, checkWaiters := socks[s], true;
      match evt {
        case RCVPLUS =>
          sock := sock.(rcvevent := sock.rcvevent + 1);
          if sock.rcvevent > 1 {
            checkWaiters := false;
          }
        case RCVMINUS =>
          sock := sock.(rcvevent := sock.rcvevent - 1);
          checkWaiters := false;
        case SENDPLUS =>
          if sock.sendevent {
            checkWaiters := false;
          }
          sock := sock.(sendevent := true);
        case SENDMINUS =>
          sock := sock.(sendevent := false);
          checkWaiters := false;
        case ERROR =>
          sock := sock.(errevent := true);
      }
      CountsOnly(s, sock);
      if sock.waiting > 0 && checkWaiters {
        var walk := Walk(s, sock.rcvevent > 0, sock.sendevent, sock.errevent, Start);
        WalkAdded(cbs, socks, walks, list, ctr, s, sock, walk);
        walks := walks + [walk];
      } else if sock.waiting == 0 {
        NobodyWaits(cbs, socks, walks, list, ctr, s, sock);
      } else {
        LessReady(cbs, socks, walks, list, ctr, s, sock);
      }
      socks := socks[s := sock];
    }

    lemma CountsOnly(s: nat, sock: Sock)
      requires Counts(cbs, socks) && s < |socks| && sock.waiting == socks[s].waiting
      ensures Counts(cbs, socks[s := sock])
    {
    }

    // ---------------------------------------------------------------- select_check_waiters

    // The part of select_check_waiters for one entry, which is on the list: it is signalled if it is not
    // yet and an event of the walk is in its sets, whatever maxfdp1 its call had.
    method Look(k: nat, x: nat)
      requires Valid() && k < |walks| && !walks[k].place.Over? && x < |cbs| && x in list
      requires forall w :: w in list && w != x && ToVisit(walks[k], list, ctr, w) ==> w in After(list, x)
      modifies `cbs, `walks
      ensures Valid() && cbs == old(cbs)[x := AfterLook(old(cbs)[x], old(walks)[k])]
      ensures cbs[x].signals <= 1
      ensures walks == old(walks)[k := old(walks)[k].(place := At(x, ctr))]
    {
      ListIsNoDup();
      LookedAt(x);
      hide Counts, GoodWalks, NoneLost, Linked, GoodCb, Phases, ToVisit, After;
      var walk := walks[k];
      var cb := Test(cbs[x], walk);
      StillGood(cbs[x], cb, |socks|);
      NothingToSignal(cbs[x], walk, cb);
      StillPhases(cbs, list, |socks|, x, cb);
      CountsFewer(cbs, socks, x, cb);
      WalkLooked(cbs, socks, walks, list, ctr, k, x, cb);
      LinkedSame(cbs, cbs[x := cb], head, list);
      walks := walks[k := walk.(place := At(x, ctr))];
      cbs := cbs[x := cb];
    }

    lemma LookedAt(x: nat)
      requires Valid() && x < |cbs|
      ensures GoodCb(cbs[x], |socks|) && (cbs[x].signalled <==> cbs[x].signals == 1)
    {
    }

    // Whether the entry is signalled, and doing so.
    static method Test(was: Cb, walk: Walk) returns (cb: Cb)
      ensures cb == AfterLook(was, walk)
    {
      cb := was;
      if !cb.signalled {
        var doSignal := false;
        if walk.recv && InSet(cb, walk.s, Recv) {
          doSignal := true;
        }
        if walk.send && !doSignal && InSet(cb, walk.s, Send) {
          doSignal := true;
        }
        if walk.error && !doSignal && InSet(cb, walk.s, Error) {
          doSignal := true;
        }
        if doSignal {
          cb := cb.(signalled := true, signals := cb.signals + 1);
        }
        BitCases(walk);
      }
    }

    // One section of select_check_waiters: it starts again if the list has changed, and otherwise goes
    // on behind the entry it looked at.
    method WalkOn(k: nat)
      requires Valid() && k < |walks| && !walks[k].place.Over?
      modifies `cbs, `walks
      ensures Valid() && Now() == WalkNext(old(Now()), k)
      ensures walks[k].place.At? ==> walks[k].place.node in list && walks[k].place.last == ctr
    {
      hide Counts, NoneLost, Exposed, ToVisit, After;
      var place := walks[k].place;
      var scb := head;
      if place.At? && place.last == ctr {
        NextIs(cbs, head, list, place.node);
        scb := cbs[place.node].next;
      }
      NextToVisit(k, scb);
      if scb.Some? {
        Look(k, scb.value);
      } else {
        EndWalk(k);
      }
    }

    // The walk has reached the end of the list.
    method EndWalk(k: nat)
      requires Valid() && k < |walks| && forall w :: w in list ==> !ToVisit(walks[k], list, ctr, w)
      modifies `walks
      ensures Valid() && walks == old(walks)[k := old(walks)[k].(place := Over)]
    {
      hide Counts, GoodWalks, NoneLost, Linked, ToVisit;
      WalkOver(cbs, socks, walks, list, ctr, k);
      walks := walks[k := walks[k].(place := Over)];
    }

    // Everything the walk has still to look at is the next entry or lies behind it.
    lemma NextToVisit(k: nat, scb: Option<nat>)
      requires Valid() && k < |walks| && !walks[k].place.Over?
      requires match walks[k].place
               case At(node, last) => if last == ctr then node < |cbs| && scb == cbs[node].next else scb == head
               case _ => scb == head
      ensures scb == NextEntry(walks[k], list, ctr) && (scb.Some? ==> scb.value < |cbs| && scb.value in list)
      ensures forall w :: w in list && ToVisit(walks[k], list, ctr, w) ==>
                scb.Some? && (w == scb.value || w in After(list, scb.value))
    {
      if walks[k].place.At? && walks[k].place.last == ctr {
        NextIs(cbs, head, list, walks[k].place.node);
      } else if list != [] {
        AfterAt(list, 0);
        assert list == [list[0]] + list[1..];
      }
    }

    lemma ListIsNoDup()
      requires Linked(cbs, head, list)
      ensures NoDup(list)
    {
    }
  }

  // Incrementing the counter of the next socket adds that socket to those the call holds.
  lemma MoreHolds(cb: Cb)
    requires cb.phase.Inc?
    ensures forall t :: Holds(cb.(phase := Inc(cb.phase.i + 1)), t) && t != cb.phase.i ==> Holds(cb, t)
  {
  }

  // Going on with the decrements lets go of the next socket.
  lemma FewerHolds(cb: Cb)
    requires cb.phase.Dec? && cb.phase.i < cb.phase.limit
    ensures WatchesAny(cb, cb.phase.i) <==> Holds(cb, cb.phase.i)
    ensures var next := cb.(phase := Dec(cb.phase.i + 1, cb.phase.limit));
      && (forall t :: Holds(next, t) <==> t != cb.phase.i && Holds(cb, t))
      && (forall s, b :: !Exposed(next, s, b))
      && (forall n :: GoodCb(cb, n) ==> GoodCb(next, n) && cb.phase.i < n)
  {
  }

  // The second scan makes a call hold no more sockets, and rely on no more that are ready.
  lemma ScanAllows(a: State, w: nat, valid: bool, p: Phase)
    requires w < |a.cbs| && a.cbs[w].phase.Rescan? && GoodCb(a.cbs[w], |a.socks|)
    requires RescanNext(a, w, valid) == InPhase(a, w, p)
    ensures var cb := a.cbs[w].(phase := p);
      && p != Gone && GoodCb(cb, |a.socks|)
      && (forall s :: 0 <= s < |a.socks| && Holds(cb, s) ==> Holds(a.cbs[w], s))
      && (forall s, b :: 0 <= s < |a.socks| && Exposed(cb, s, b) && Ready(a.socks[s], b) ==> Exposed(a.cbs[w], s, b))
  {
    assert RescanNext(a, w, valid).cbs[w].phase == InPhase(a, w, p).cbs[w].phase == p;
    hide Ready;
  }

  lemma AnyReady(cb: Cb, s: nat, sock: Sock)
    ensures (exists b :: Watches(cb, s, b) && Ready(sock, b)) <==>
            (Watches(cb, s, Recv) && Ready(sock, Recv)) || (Watches(cb, s, Send) && Ready(sock, Send))
            || (Watches(cb, s, Error) && Ready(sock, Error))
  {
  }

  lemma BitCases(walk: Walk)
    ensures forall b :: Has(walk, b) == match b case Recv => walk.recv case Send => walk.send case Error => walk.error
  {
  }

  lemma NothingToSignal(was: Cb, walk: Walk, cb: Cb)
    requires cb == AfterLook(was, walk)
    ensures cb.signalled || (cb == was && forall b :: Watches(cb, walk.s, b) ==> !Has(walk, b))
  {
  }

  lemma StillGood(was: Cb, cb: Cb, n: nat)
    requires GoodCb(was, n)
    requires cb == was || (!was.signalled && cb == was.(signalled := true, signals := was.signals + 1))
    ensures GoodCb(cb, n) && cb.phase == was.phase && cb.signals <= 1
    ensures cb.next == was.next && cb.prev == was.prev
    ensures forall s :: Holds(cb, s) == Holds(was, s)
  {
  }

  lemma StillPhases(cbs: seq<Cb>, list: seq<nat>, n: nat, x: nat, cb: Cb)
    requires Phases(cbs, list, n) && x < |cbs| && GoodCb(cb, n) && cb.phase == cbs[x].phase
    ensures Phases(cbs[x := cb], list, n)
  {
  }

  // One step, if the thread can take it.
  method Perform(selects: Selects, step: Step)
    requires selects.Valid()
    modifies selects
    ensures selects.Valid() && Stepped(old(selects.Now()), step, selects.Now())
  {
    hide Selects.Valid, CallStep, LeaveStep, IncNext, RescanNext, DecNext, EventNext, WalkNext, InPhase;
    match step {
      case Call(readset, writeset, exceptset, max) =>
        if max <= |selects.socks| {
          var w := selects.LinkSelectCb(readset, writeset, exceptset, max);
        }
      case GoOn(w, valid, timeout) =>
        if w < |selects.cbs| {
          match selects.cbs[w].phase {
            case Inc(_) => selects.IncWaiting(w, valid);
            case Rescan(_, _) => selects.RescanSocket(w, valid);
            case Parked =>
              if 0 < selects.cbs[w].signals || timeout {
                selects.Wake(w, timeout);
              }
            case Dec(i, limit) =>
              if i < limit {
                selects.DecWaiting(w, valid);
              } else if i == limit {
                selects.UnlinkSelectCb(w);
              }
            case Gone =>
          }
        }
      case Happens(s, evt) =>
        if s < |selects.socks| {
          selects.EventCallback(s, evt);
        }
      case WalkStep(k) =>
        if k < |selects.walks| && !selects.walks[k].place.Over? {
          selects.WalkOn(k);
        }
    }
  }

  lemma Added(cbs: seq<Cb>, next: seq<Cb>, socks: seq<Sock>, walks: seq<Walk>, list: seq<nat>, ctr: nat)
    requires Counts(cbs, socks) && NoneLost(cbs, socks, walks, list, ctr) && GoodWalks(walks, list, ctr)
    requires |next| == |cbs| + 1 && next[|cbs|].phase == Inc(0)
    requires forall v :: 0 <= v < |cbs| ==> next[v] == cbs[v].(next := next[v].next, prev := next[v].prev)
    ensures Counts(next, socks)
    ensures NoneLost(next, socks, walks, [|cbs|] + list, ctr + 1) && GoodWalks(walks, [|cbs|] + list, ctr + 1)
  {
    forall s | 0 <= s < |socks| ensures |Holders(next, s)| <= socks[s].waiting {
      assert Holders(next, s) == Holders(cbs, s);
    }
    ListChanged(cbs, next, socks, walks, list, [|cbs|] + list, ctr);
  }

  lemma Left(cbs: seq<Cb>, next: seq<Cb>, socks: seq<Sock>, walks: seq<Walk>, list: seq<nat>, now: seq<nat>, ctr: nat,
             w: nat)
    requires Counts(cbs, socks) && NoneLost(cbs, socks, walks, list, ctr) && GoodWalks(walks, list, ctr)
    requires |next| == |cbs| && w < |cbs| && next[w].phase == Gone
    requires forall v :: 0 <= v < |cbs| && v != w ==> next[v] == cbs[v].(next := next[v].next, prev := next[v].prev)
    ensures Counts(next, socks)
    ensures NoneLost(next, socks, walks, now, ctr + 1) && GoodWalks(walks, now, ctr + 1)
  {
    forall s | 0 <= s < |socks| ensures |Holders(next, s)| <= socks[s].waiting {
      assert Holders(next, s) <= Holders(cbs, s);
      SubsetSize(Holders(next, s), Holders(cbs, s));
    }
    ListChanged(cbs, next, socks, walks, list, now, ctr);
  }
}
