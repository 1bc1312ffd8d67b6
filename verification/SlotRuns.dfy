// Runs of the threads in sockets.c that take, close and give back descriptor slots: what holds along every
// run, told without the functions that say what a section does.
module SlotRuns {
  import opened Wrappers
  import opened SocketSlots

  // ---------------------------------------------------------------- references

  // At this step a thread is given a reference to slot s: it is given an empty slot that nobody holds, or
  // takes one that is not to be freed.
  ghost predicate Grants(a: State, step: Step, s: nat) {
    && s < |a.socks| == |a.holders|
    && match step
       case TrySlot(t, c, slot) =>
         && slot == s && c < |a.conns| && a.conns[c].place == Loose(t)
         && a.socks[s].conn.None? && a.holders[s] == multiset{}
       case Take(_, slot) => slot == s && |a.holders[s]| < 255 && a.socks[s].pending.No?
       case _ => false
  }

  // At this step a thread gives back a reference to slot s that it holds, with done_socket or free_socket.
  ghost predicate GivesBack(a: State, step: Step, s: nat) {
    && s < |a.socks| == |a.holders|
    && match step
       case Done(r, slot) => slot == s && r in a.holders[s]
       case Close(r, slot) => slot == s && r in a.holders[s] && r.seen.Some?
       case _ => false
  }

  // What becomes of the number of references.
  ghost function Balance(a: State, step: Step, s: nat): int {
    if Grants(a, step, s) then 1 else if GivesBack(a, step, s) then -1 else 0
  }

  // The references on slot s after a step.
  ghost function RefsAfter(a: State, step: Step, s: nat): multiset<Ref>
    requires s < |a.socks| == |a.holders|
  {
    var refs := a.holders[s];
    if Grants(a, step, s) then
      match step case TrySlot(t, c, _) => multiset{Ref(t, Some(c))} case _ => refs + multiset{Ref(step.thread, None)}
    else if GivesBack(a, step, s) then refs - multiset{step.ref}
    else if step.Check? && step.slot == s && step.ref in refs then
      refs - multiset{step.ref} + multiset{Ref(step.ref.thread, a.socks[s].conn)}
    else refs
  }

  lemma RefsStep(a: State, step: Step, s: nat)
    requires s < |a.socks| == |a.holders|
    ensures |Next(a, step).holders| == |a.holders| == |Next(a, step).socks|
    ensures Next(a, step).holders[s] == RefsAfter(a, step, s)
  {
    hide AllocNext, TakeNext, CheckNext, FreeNext, DoneNext, RefsAfter;
    RefsCases(a, step, s);
    if Possible(a.socks, a.holders, a.conns, step) {
      match step {
        case TrySlot(t, c, slot) => AllocRefs(a, slot, c, t);
        case Take(t, slot) => TakeRefs(a, slot, t);
        case Check(ref, slot) => CheckRefs(a, slot, ref);
        case Done(ref, slot) => DoneRefs(a, slot, ref);
        case Close(ref, slot) =>
          FreeRefs(a, slot, ref, ref.seen.value < |a.conns| && a.conns[ref.seen.value].kind == TCP);
        case _ =>
      }
    }
  }

  // The references after a step, case by case.
  lemma RefsCases(a: State, step: Step, s: nat)
    requires s < |a.socks| == |a.holders|
    ensures RefsAfter(a, step, s) ==
      if !Possible(a.socks, a.holders, a.conns, step) then a.holders[s]
      else match step
           case TrySlot(t, c, slot) =>
             if slot == s && a.socks[s].conn.None? && a.holders[s] == multiset{} then multiset{Ref(t, Some(c))}
             else a.holders[s]
           case Take(t, slot) =>
             if slot == s && a.socks[s].pending.No? then a.holders[s] + multiset{Ref(t, None)} else a.holders[s]
           case Check(r, slot) =>
             if slot == s then a.holders[s] - multiset{r} + multiset{Ref(r.thread, a.socks[s].conn)} else a.holders[s]
           case Done(r, slot) => if slot == s then a.holders[s] - multiset{r} else a.holders[s]
           case Close(r, slot) => if slot == s then a.holders[s] - multiset{r} else a.holders[s]
           case _ => a.holders[s]
  {
  }

  lemma AllocRefs(a: State, i: nat, c: nat, t: nat)
    requires i < |a.socks| == |a.holders| && c < |a.conns|
    ensures |AllocNext(a, i, c, t).socks| == |a.socks|
    ensures AllocNext(a, i, c, t).holders ==
            if a.socks[i].conn.None? && a.holders[i] == multiset{} then a.holders[i := multiset{Ref(t, Some(c))}]
            else a.holders
  {
  }

  lemma TakeRefs(a: State, s: nat, t: nat)
    requires s < |a.socks| == |a.holders|
    ensures |TakeNext(a, s, t).socks| == |a.socks|
    ensures TakeNext(a, s, t).holders ==
            if a.socks[s].pending.No? then a.holders[s := a.holders[s] + multiset{Ref(t, None)}] else a.holders
  {
  }

  lemma CheckRefs(a: State, s: nat, r: Ref)
    requires s < |a.socks| == |a.holders|
    ensures |CheckNext(a, s, r).socks| == |a.socks|
    ensures CheckNext(a, s, r).holders
         == a.holders[s := a.holders[s] - multiset{r} + multiset{Ref(r.thread, a.socks[s].conn)}]
  {
  }

  lemma DoneRefs(a: State, s: nat, r: Ref)
    requires s < |a.socks| == |a.holders|
    ensures |DoneNext(a, s, r).socks| == |a.socks|
    ensures DoneNext(a, s, r).holders == a.holders[s := a.holders[s] - multiset{r}]
  {
  }

  lemma FreeRefs(a: State, s: nat, r: Ref, tcp: bool)
    requires s < |a.socks| == |a.holders|
    ensures |FreeNext(a, s, r, tcp).socks| == |a.socks|
    ensures FreeNext(a, s, r, tcp).holders == a.holders[s := a.holders[s] - multiset{r}]
  {
  }

  lemma BalanceStep(a: State, step: Step, s: nat)
    requires s < |a.socks| == |a.holders|
    ensures |RefsAfter(a, step, s)| == |a.holders[s]| + Balance(a, step, s)
  {
    var refs := a.holders[s];
    if (GivesBack(a, step, s) || step.Check?) && step.ref in refs {
      OneOut(refs, step.ref);
    }
  }

  lemma OneOut(refs: multiset<Ref>, r: Ref)
    requires r in refs
    ensures |refs - multiset{r}| == |refs| - 1
  {
  }

  // A thread that holds a reference to the slot.
  ghost predicate HasRef(refs: multiset<Ref>, t: nat) {
    exists r :: r in refs && r.thread == t
  }

  predicate GivesBackOf(step: Step, t: nat, s: nat) {
    match step
    case Done(r, slot) => r.thread == t && slot == s
    case Close(r, slot) => r.thread == t && slot == s
    case _ => false
  }

  // Only the thread itself ends its hold on a slot.
  lemma HoldStep(a: State, step: Step, t: nat, s: nat)
    requires s < |a.socks| == |a.holders| && !GivesBackOf(step, t, s)
    requires HasRef(a.holders[s], t) || (step == Take(t, s) && Grants(a, step, s))
    ensures HasRef(RefsAfter(a, step, s), t)
  {
    var refs, now := a.holders[s], RefsAfter(a, step, s);
    if HasRef(refs, t) {
      var r :| r in refs && r.thread == t;
      if step.Check? && step.ref == r {
        assert step.slot == s ==> Ref(t, a.socks[s].conn) in now;
        assert step.slot != s ==> r in now;
      } else {
        assert refs != multiset{};
        assert r in now;
      }
    } else {
      assert Ref(t, None) in now;
    }
  }

  // ---------------------------------------------------------------- runs

  ghost predicate IsRun(trace: seq<State>, steps: seq<Step>) {
    && |trace| == |steps| + 1
    && (forall n :: 0 <= n < |trace| ==> Fits(trace[n]))
    && forall n :: 0 <= n < |steps| ==> trace[n + 1] == Next(trace[n], steps[n])
  }

  // The references granted and not given back in the first n steps.
  ghost function Balances(trace: seq<State>, steps: seq<Step>, s: nat, n: nat): int
    requires |trace| == |steps| + 1 && n <= |steps|
  {
    if n == 0 then 0 else Balances(trace, steps, s, n - 1) + Balance(trace[n - 1], steps[n - 1], s)
  }

  lemma FitSize(a: State)
    requires Fits(a)
    ensures |a.holders| == |a.socks|
  {
  }

  lemma {:induction false} RefsCounted(trace: seq<State>, steps: seq<Step>, s: nat, n: nat)
    requires IsRun(trace, steps) && n <= |steps| && s < |trace[0].socks|
    ensures |trace[n].socks| == |trace[n].holders| == |trace[0].socks| == |trace[0].holders|
    ensures |trace[n].holders[s]| == |trace[0].holders[s]| + Balances(trace, steps, s, n)
  {
    hide Fits, Next, RefsAfter, Balance;
    FitSize(trace[0]);
    if 0 < n {
      RefsCounted(trace, steps, s, n - 1);
      RefsStep(trace[n - 1], steps[n - 1], s);
      BalanceStep(trace[n - 1], steps[n - 1], s);
    }
  }

  // From the step on at which thread t is given its reference, until it gives it back, the thread holds the
  // slot, the netconn in it stays there, and is neither taken out nor deleted.
  ghost predicate Holds(trace: seq<State>, t: nat, s: nat, from: nat, j: nat)
    requires from <= j < |trace|
  {
    && s < |trace[j].socks| == |trace[j].holders| && s < |trace[from].socks|
    && HasRef(trace[j].holders[s], t) && trace[j].socks[s].conn == trace[from].socks[s].conn
    && var conn := trace[j].socks[s].conn;
       conn.Some? ==> conn.value < |trace[j].conns| && trace[j].conns[conn.value].place == InSlot(s)
  }

  ghost predicate GivenAt(a: State, step: Step, t: nat, s: nat) {
    Grants(a, step, s) && step.thread == t
  }

  // The thread gives nothing back to the slot between the two steps.
  ghost predicate KeepsTo(steps: seq<Step>, t: nat, s: nat, n: nat, j: nat) {
    n < j <= |steps| && forall m :: n < m < j ==> !GivesBackOf(steps[m], t, s)
  }

  lemma {:induction false} HoldsOn(trace: seq<State>, steps: seq<Step>, t: nat, s: nat, n: nat, j: nat)
    requires IsRun(trace, steps) && KeepsTo(steps, t, s, n, j) && GivenAt(trace[n], steps[n], t, s)
    ensures Holds(trace, t, s, n + 1, j)
  {
    hide Fits, Next, RefsAfter, GivenAt, HasRef, Kept;
    if j == n + 1 {
      Given(trace[n], steps[n], t, s);
    } else {
      HoldsOn(trace, steps, t, s, n, j - 1);
      StaysHeld(trace[j - 1], steps[j - 1], t, s);
    }
    InItsSlot(trace[j], s);
  }

  lemma InItsSlot(a: State, s: nat)
    requires Fits(a) && s < |a.socks|
    ensures var conn := a.socks[s].conn; conn.Some? ==> conn.value < |a.conns| && a.conns[conn.value].place == InSlot(s)
  {
  }

  lemma Given(a: State, step: Step, t: nat, s: nat)
    requires Fits(a) && GivenAt(a, step, t, s)
    ensures s < |Next(a, step).socks| == |Next(a, step).holders| && HasRef(Next(a, step).holders[s], t)
  {
    hide Fits, Next;
    RefsStep(a, step, s);
    var refs := RefsAfter(a, step, s);
    if step.TrySlot? {
      assert Ref(t, Some(step.conn)) in refs;
    } else {
      assert Ref(t, None) in refs;
    }
  }

  lemma StaysHeld(a: State, step: Step, t: nat, s: nat)
    requires Fits(a) && s < |a.socks| == |a.holders| && HasRef(a.holders[s], t) && !GivesBackOf(step, t, s)
    ensures var b := Next(a, step);
      && s < |b.socks| == |b.holders| && HasRef(b.holders[s], t) && b.socks[s].conn == a.socks[s].conn
  {
    hide Fits, Next, RefsAfter;
    RefsStep(a, step, s);
    HoldStep(a, step, t, s);
    KeptByNext(a, step);
    assert a.holders[s] != multiset{} && Next(a, step).holders[s] != multiset{};
  }

  // ---------------------------------------------------------------- what a step does to a netconn

  ghost predicate Does(a: State, step: Step, b: State) {
    match step
    case New(t, kind) => |b.conns| == |a.conns| + 1 && b.conns[|a.conns|] == Netconn(kind, Loose(t), 0)
    case TrySlot(_, c, s) =>
      Grants(a, step, s) ==>
        c < |b.conns| && b.conns[c].place == InSlot(s) && s < |b.socks| && b.socks[s] == Sock(Some(c), 1, No)
    case NoSlot(t, c) => c < |a.conns| && a.conns[c].place == Loose(t) ==>
      c < |b.conns| && b.conns[c].place == Deleted(false) && b.conns[c].deletes == 1
    case Delete(t, c) => c < |a.conns| && a.conns[c].place == Condemned(t) ==>
      c < |b.conns| && b.conns[c].place == Deleted(true) && b.conns[c].deletes == 1
    case Close(r, s) => GivesBack(a, step, s) ==>
      && b.closed == a.closed + {r.seen.value} && TakenOut(a, b, r, s, true)
    case Done(r, s) => GivesBack(a, step, s) ==>
      b.closed == a.closed && TakenOut(a, b, r, s, a.socks[s].pending.Free?)
    case _ => b.closed == a.closed && b.conns == a.conns
  }

  // The last reference is given back, to a slot that is to be freed: its netconn is with the thread; and
  // it stays where it is if others hold the slot, which is then to be freed, or if nobody closed it.
  ghost predicate TakenOut(a: State, b: State, r: Ref, s: nat, free: bool)
    requires s < |a.socks|
  {
    && s < |b.socks| == |b.holders|
    && var conn := a.socks[s].conn;
       if free && b.holders[s] == multiset{} then
         && b.socks[s].conn.None?
         && (conn.Some? ==> conn.value < |b.conns| && b.conns[conn.value].place == Condemned(r.thread))
       else b.conns == a.conns && b.socks[s].conn == conn && (free ==> b.socks[s].pending.Free?)
  }

  lemma StepDoes(a: State, step: Step)
    requires Fits(a)
    ensures Does(a, step, Next(a, step))
  {
    hide AllocNext, TakeNext, CheckNext, FreeNext, DoneNext, Fits, TakenOut;
    FitSize(a);
    match step {
      case TrySlot(t, c, s) =>
        if Grants(a, step, s) {
          AllocDoes(a, s, c, t);
        }
      case Take(t, s) =>
        if s < |a.socks| {
          OnlyRefs(a, s, t, Ref(t, None));
        }
      case Check(r, s) =>
        if s < |a.socks| {
          OnlyRefs(a, s, 0, r);
        }
      case Done(r, s) =>
        if GivesBack(a, step, s) {
          DoneDoes(a, s, r);
        }
      case Close(r, s) =>
        if GivesBack(a, step, s) {
          FreeDoes(a, s, r, r.seen.value < |a.conns| && a.conns[r.seen.value].kind == TCP);
        }
      case _ => DeletesOnce(a);
    }
  }

  lemma DeletesOnce(a: State)
    requires Fits(a)
    ensures forall c :: 0 <= c < |a.conns| ==> (a.conns[c].deletes == if a.conns[c].place.Deleted? then 1 else 0)
  {
  }

  lemma AllocDoes(a: State, s: nat, c: nat, t: nat)
    requires s < |a.socks| == |a.holders| && c < |a.conns| && a.socks[s].conn.None? && a.holders[s] == multiset{}
    ensures var b := AllocNext(a, s, c, t);
      |b.conns| == |a.conns| && b.conns[c].place == InSlot(s) && |b.socks| == |a.socks|
      && b.socks[s] == Sock(Some(c), 1, No)
  {
  }

  lemma OnlyRefs(a: State, s: nat, t: nat, r: Ref)
    requires s < |a.socks| == |a.holders|
    ensures TakeNext(a, s, t).closed == CheckNext(a, s, r).closed == a.closed
    ensures TakeNext(a, s, t).conns == CheckNext(a, s, r).conns == a.conns
  {
  }

  lemma DoneDoes(a: State, s: nat, r: Ref)
    requires Fits(a) && s < |a.socks| == |a.holders| && r in a.holders[s]
    ensures DoneNext(a, s, r).closed == a.closed && TakenOut(a, DoneNext(a, s, r), r, s, a.socks[s].pending.Free?)
  {
    InItsSlot(a, s);
    hide Fits;
  }

  lemma FreeDoes(a: State, s: nat, r: Ref, tcp: bool)
    requires Fits(a) && s < |a.socks| == |a.holders| && r in a.holders[s] && r.seen.Some?
    ensures FreeNext(a, s, r, tcp).closed == a.closed + {r.seen.value}
    ensures TakenOut(a, FreeNext(a, s, r, tcp), r, s, true)
  {
    InItsSlot(a, s);
    assert Counted(a.socks[s], a.holders[s]);
    hide Fits, Consistent;
  }

  // ---------------------------------------------------------------- any interleaving

  // Every step has its effect.
  ghost predicate EachDoes(trace: seq<State>, steps: seq<Step>)
    requires |trace| == |steps| + 1
  {
    forall n: nat :: n < |steps| ==> Does(trace[n], steps[n], trace[n + 1])
  }

  // fd_used of every slot is the number of references, which are those granted and not given back.
  ghost predicate RefsRight(trace: seq<State>, steps: seq<Step>, s: nat, n: nat)
    requires |trace| == |steps| + 1 && n <= |steps|
  {
    && s < |trace[n].socks| == |trace[n].holders| && s < |trace[0].holders|
    && trace[n].socks[s].used == |trace[n].holders[s]|
    && |trace[n].holders[s]| == |trace[0].holders[s]| + Balances(trace, steps, s, n)
  }

  // What happens in a run: besides, who holds a slot can rely on the netconn in it.
  ghost predicate RunDoes(trace: seq<State>, steps: seq<Step>)
    requires |trace| == |steps| + 1
  {
    && EachDoes(trace, steps)
    && (forall s: nat, n: nat :: s < |trace[0].socks| && n <= |steps| ==> RefsRight(trace, steps, s, n))
    && forall t: nat, s: nat, n: nat, j: nat {:trigger KeepsTo(steps, t, s, n, j)} ::
         KeepsTo(steps, t, s, n, j) && GivenAt(trace[n], steps[n], t, s) ==> Holds(trace, t, s, n + 1, j)
  }

  lemma AllDone(trace: seq<State>, steps: seq<Step>)
    requires IsRun(trace, steps)
    ensures RunDoes(trace, steps)
  {
    hide Fits, Next, Does, Holds, GivenAt, Balances, GivesBackOf;
    forall n: nat | n < |steps| ensures Does(trace[n], steps[n], trace[n + 1]) {
      StepDoes(trace[n], steps[n]);
    }
    forall s: nat, n: nat | s < |trace[0].socks| && n <= |steps| ensures RefsRight(trace, steps, s, n) {
      RefsCounted(trace, steps, s, n);
      UsedCounts(trace[n], s);
    }
    forall t: nat, s: nat, n: nat, j: nat | KeepsTo(steps, t, s, n, j) && GivenAt(trace[n], steps[n], t, s)
      ensures Holds(trace, t, s, n + 1, j)
    {
      HoldsOn(trace, steps, t, s, n, j);
    }
  }

  lemma UsedCounts(a: State, s: nat)
    requires Fits(a) && s < |a.socks| == |a.holders|
    ensures a.socks[s].used == |a.holders[s]|
  {
    assert Counted(a.socks[s], a.holders[s]);
  }

  ghost predicate AllGivenBack(holders: seq<multiset<Ref>>) {
    forall s :: 0 <= s < |holders| ==> holders[s] == multiset{}
  }

  ghost predicate NoneCondemned(conns: seq<Netconn>) {
    forall c :: 0 <= c < |conns| ==> !conns[c].place.Condemned?
  }

  ghost predicate LeftSlot(conn: Netconn) {
    conn.place.Condemned? || conn.place == Deleted(true)
  }

  // Any number of threads, their steps interleaved in any way.
  method Run(sockets: Sockets, steps: seq<Step>) returns (ghost trace: seq<State>)
    requires sockets.Valid()
    modifies sockets
    ensures sockets.Valid()
    // all the steps were taken, one after the other
    ensures IsRun(trace, steps) && trace[0] == old(sockets.Now()) && trace[|steps|] == sockets.Now()
    ensures sockets.Now() == After(old(sockets.Now()), steps) && RunDoes(trace, steps)
    // fd_used is the number of references, and what a holder saw in its slot is still there
    ensures forall s :: 0 <= s < |sockets.socks| ==> Counted(sockets.socks[s], sockets.holders[s])
    // a netconn left its slot at most once and was passed to netconn_delete at most once
    ensures Onward(old(sockets.conns), sockets.conns) && old(sockets.closed) <= sockets.closed
    ensures forall c :: 0 <= c < |sockets.conns| ==> sockets.conns[c].deletes <= 1
    // no netconn left its slot that was not closed
    ensures forall c :: 0 <= c < |sockets.conns| && LeftSlot(sockets.conns[c]) ==> c in sockets.closed
    // once all references are given back, every netconn that was closed has left its slot, and one that
    // was not is still open in it
    ensures AllGivenBack(sockets.holders) ==>
              && (forall c :: c in sockets.closed ==> c < |sockets.conns| && LeftSlot(sockets.conns[c]))
              && (forall c :: 0 <= c < |sockets.conns| && sockets.conns[c].place.InSlot? ==>
                    sockets.conns[c].place.slot < |sockets.socks|
                    && sockets.socks[sockets.conns[c].place.slot] == Sock(Some(c), 0, No))
    // and once the threads that took them out have gone on, each of them was passed to netconn_delete
    // exactly once
    ensures AllGivenBack(sockets.holders) && NoneCondemned(sockets.conns) ==>
              forall c :: c in sockets.closed ==> c < |sockets.conns| && sockets.conns[c].deletes == 1
  {
    trace := Steps(sockets, steps);
    hide IsRun, RunDoes;
    AllDone(trace, steps);
  }

  // The steps, one after the other.
  method Steps(sockets: Sockets, steps: seq<Step>) returns (ghost trace: seq<State>)
    requires sockets.Valid()
    modifies sockets
    ensures sockets.Valid() && IsRun(trace, steps) && trace[0] == old(sockets.Now()) && trace[|steps|] == sockets.Now()
    ensures sockets.Now() == After(old(sockets.Now()), steps)
    ensures Onward(old(sockets.conns), sockets.conns) && old(sockets.closed) <= sockets.closed
  {
    hide Sockets.Enabled, Next, Fits;
    trace := [sockets.Now()];
    NothingMoves(sockets.conns);
    ItFits(sockets);
    for i := 0 to |steps|
      invariant sockets.Valid() && Onward(old(sockets.conns), sockets.conns)
      invariant old(sockets.closed) <= sockets.closed
      invariant IsRun(trace, steps[..i]) && trace[0] == old(sockets.Now()) && trace[i] == sockets.Now()
      invariant sockets.Now() == After(old(sockets.Now()), steps[..i])
    {
      assert steps[..i + 1][..i] == steps[..i];
      ghost var before := sockets.conns;
      sockets.Perform(steps[i]);
      OnwardTwice(old(sockets.conns), before, sockets.conns);
      ItFits(sockets);
      trace := trace + [sockets.Now()];
    }
    assert steps[..|steps|] == steps;
  }

  lemma ItFits(sockets: Sockets)
    requires sockets.Valid()
    ensures Fits(sockets.Now())
  {
  }
}
