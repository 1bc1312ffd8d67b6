// Runs of the threads in sockets.c that wait in select or record events: what holds along every run,
// told without the functions that say what a section does.
module SelectRuns {
  import opened Wrappers
  import opened SelectList
  import opened Select

  // The states a run goes through, each the effect of a step on the one before.
  ghost predicate IsRun(trace: seq<State>, steps: seq<Step>) {
    |trace| == |steps| + 1 && forall i :: 0 <= i < |steps| ==> Stepped(trace[i], steps[i], trace[i + 1])
  }

  ghost predicate Starts(a: State, numSockets: nat) {
    a == State(seq(numSockets, s => Sock(0, false, false, 0)), [], [], [], 0)
  }

  ghost predicate SoundRun(trace: seq<State>, steps: seq<Step>, numSockets: nat) {
    && IsRun(trace, steps) && Starts(trace[0], numSockets)
    && forall i :: 0 <= i < |trace| ==> Sound(trace[i])
  }

  // ---------------------------------------------------------------- what a step leaves alone

  // The call is the same, and asks for the same.
  predicate SameCall(was: Cb, now: Cb) {
    now.readset == was.readset && now.writeset == was.writeset && now.exceptset == was.exceptset && now.max == was.max
  }

  predicate GoesOn(step: Step, w: nat) {
    step.GoOn? && step.w == w
  }

  lemma StepKeeps(a: State, step: Step, b: State, w: nat)
    requires Stepped(a, step, b)
    ensures |a.cbs| <= |b.cbs| && |b.socks| == |a.socks| && (!step.Call? ==> |b.cbs| == |a.cbs|)
    ensures w < |a.cbs| ==> SameCall(a.cbs[w], b.cbs[w])
    ensures w < |a.cbs| && !GoesOn(step, w) ==> b.cbs[w].phase == a.cbs[w].phase
    ensures w < |a.cbs| && !step.WalkStep? ==>
              b.cbs[w].signals == a.cbs[w].signals && b.cbs[w].signalled == a.cbs[w].signalled
    ensures |a.cbs| <= w < |b.cbs| ==> b.cbs[w].phase == Inc(0) && b.cbs[w].signals == 0 && step.Call?
  {
    hide Sound, AfterLook, NextEntry, WentOn, WalkNext, EventNext;
    match step {
      case Call(readset, writeset, exceptset, max) =>
        if max <= |a.socks| {
          CallKeeps(a, NewCb(readset, writeset, exceptset, max), b, w);
        }
      case GoOn(v, valid, timeout) =>
        if v < |a.cbs| {
          WentKeeps(a, v, valid, timeout, b, w);
        }
      case Happens(s, evt) =>
        if s < |a.socks| {
          EventKeeps(a, s, evt);
        }
      case WalkStep(k) =>
        if k < |a.walks| && !a.walks[k].place.Over? {
          WalkKeeps(a, k, w);
        }
    }
  }

  lemma CallKeeps(a: State, cb: Cb, b: State, w: nat)
    requires CallStep(a, cb, b)
    ensures |b.cbs| == |a.cbs| + 1 && b.socks == a.socks
    ensures w < |b.cbs| ==> b.cbs[w] == (a.cbs + [cb])[w].(next := b.cbs[w].next, prev := b.cbs[w].prev)
  {
  }

  lemma EventKeeps(a: State, s: nat, evt: Event)
    requires s < |a.socks|
    ensures var b := EventNext(a, s, evt); b.cbs == a.cbs && |b.socks| == |a.socks|
  {
  }

  lemma WentKeeps(a: State, v: nat, valid: bool, timeout: bool, b: State, w: nat)
    requires v < |a.cbs| && WentOn(a, v, valid, timeout, b)
    ensures |b.cbs| == |a.cbs| && |b.socks| == |a.socks|
    ensures w < |a.cbs| ==>
              && SameCall(a.cbs[w], b.cbs[w]) && (w != v ==> b.cbs[w].phase == a.cbs[w].phase)
              && b.cbs[w].signals == a.cbs[w].signals && b.cbs[w].signalled == a.cbs[w].signalled
  {
    hide Ready, WatchesAny, Watches;
  }

  lemma WalkKeeps(a: State, k: nat, w: nat)
    requires k < |a.walks|
    ensures var b := WalkNext(a, k);
      && |b.cbs| == |a.cbs| && b.socks == a.socks
      && (w < |a.cbs| ==> SameCall(a.cbs[w], b.cbs[w]) && b.cbs[w].phase == a.cbs[w].phase)
  {
    hide NextEntry;
  }

  // ---------------------------------------------------------------- the second scan and waiting

  // A watched event of call w is there on socket i.
  ghost predicate Hot(a: State, w: nat, i: nat)
    requires w < |a.cbs|
  {
    i < |a.socks| && exists b :: Watches(a.cbs[w], i, b) && Ready(a.socks[i], b)
  }

  // At this step the second scan of call w looks at socket i.
  ghost predicate Scans(a: State, step: Step, w: nat, i: nat) {
    GoesOn(step, w) && w < |a.cbs| && a.cbs[w].phase.Rescan? && a.cbs[w].phase.i == i
  }

  // At this step the second scan of call w finds a socket it asked for closed, or ready.
  ghost predicate Spoils(a: State, step: Step, w: nat) {
    && GoesOn(step, w) && w < |a.cbs| && a.cbs[w].phase.Rescan?
    && var cb, i := a.cbs[w], a.cbs[w].phase.i;
       i < cb.max && WatchesAny(cb, i) && (!step.valid || Hot(a, w, i))
  }

  // At this step call w cannot be counted by a socket it asked for: that is closed, or its counter is full.
  ghost predicate Obstructs(a: State, step: Step, w: nat) {
    && GoesOn(step, w) && w < |a.cbs| && a.cbs[w].phase.Inc?
    && var cb, i := a.cbs[w], a.cbs[w].phase.i;
       i < cb.max && WatchesAny(cb, i) && (!step.valid || i >= |a.socks| || a.socks[i].waiting == SELWAIT_MAX)
  }

  ghost predicate Spoilt(trace: seq<State>, steps: seq<Step>, w: nat, n: nat)
    requires |trace| == |steps| + 1 && n <= |steps|
  {
    exists m :: 0 <= m < n && Spoils(trace[m], steps[m], w)
  }

  ghost predicate Obstructed(trace: seq<State>, steps: seq<Step>, w: nat, n: nat)
    requires |trace| == |steps| + 1 && n <= |steps|
  {
    exists m :: 0 <= m < n && Obstructs(trace[m], steps[m], w)
  }

  ghost predicate Scanned(trace: seq<State>, steps: seq<Step>, w: nat, n: nat, i: nat)
    requires |trace| == |steps| + 1 && n <= |steps|
  {
    exists m :: 0 <= m < n && Scans(trace[m], steps[m], w, i)
  }

  lemma OneMoreStep(trace: seq<State>, steps: seq<Step>, w: nat, n: nat)
    requires |trace| == |steps| + 1 && n < |steps|
    ensures Spoilt(trace, steps, w, n + 1) <==> Spoilt(trace, steps, w, n) || Spoils(trace[n], steps[n], w)
    ensures Obstructed(trace, steps, w, n + 1) <==> Obstructed(trace, steps, w, n) || Obstructs(trace[n], steps[n], w)
    ensures forall i: nat {:trigger Scanned(trace, steps, w, n + 1, i)} ::
              Scanned(trace, steps, w, n + 1, i) <==>
              Scanned(trace, steps, w, n, i) || Scans(trace[n], steps[n], w, i)
  {
    hide Spoils, Obstructs, Scans;
  }

  // How a call goes on while it is counted or scans.
  lemma PhaseAfter(a: State, step: Step, b: State, w: nat)
    requires Stepped(a, step, b) && w < |a.cbs| && w < |b.cbs| && GoesOn(step, w)
    ensures var cb, now := a.cbs[w], b.cbs[w].phase;
      match cb.phase
      case Inc(i) =>
        if i == cb.max then now == Rescan(0, false)
        else if Obstructs(a, step, w) && i < cb.max then now == Dec(0, i) else i < cb.max ==> now == Inc(i + 1)
      case Rescan(i, ready) =>
        if i == cb.max then now == if ready then Dec(0, i) else Parked
        else if i < cb.max && WatchesAny(cb, i) && !step.valid then now == Dec(0, cb.max)
        else i < cb.max ==> now == Rescan(i + 1, ready || Spoils(a, step, w))
      case Parked => now == if 0 < cb.signals || step.timeout then Dec(0, cb.max) else Parked
      case Dec(i, limit) => now == if i < limit then Dec(i + 1, limit) else if i == limit then Gone else cb.phase
      case Gone => now == Gone
  {
    hide InPhase, Ready;
    InPhaseIs(a, w);
    if a.cbs[w].phase.Dec? && a.cbs[w].phase.i == a.cbs[w].phase.limit {
      assert LeaveStep(a, w, b);
    }
  }

  lemma InPhaseIs(a: State, w: nat)
    requires w < |a.cbs|
    ensures forall p :: |InPhase(a, w, p).cbs| == |a.cbs| && InPhase(a, w, p).cbs[w].phase == p
  {
  }

  // What has happened to call w in the first n steps, as far as its phase tells.
  ghost predicate SoFar(trace: seq<State>, steps: seq<Step>, w: nat, n: nat)
    requires |trace| == |steps| + 1 && n <= |steps|
  {
    if w >= |trace[n].cbs| then !Spoilt(trace, steps, w, n) && !Obstructed(trace, steps, w, n)
    else
      match trace[n].cbs[w].phase
      case Inc(_) => !Spoilt(trace, steps, w, n) && !Obstructed(trace, steps, w, n)
      case Rescan(i, ready) =>
        && (ready <==> Spoilt(trace, steps, w, n))
        && forall j :: 0 <= j < i ==> Scanned(trace, steps, w, n, j)
      case _ => true
  }

  lemma {:induction false} SoFarAlways(trace: seq<State>, steps: seq<Step>, w: nat, n: nat)
    requires IsRun(trace, steps) && n <= |steps| && trace[0].cbs == []
    requires forall m :: 0 <= m < |trace| ==> Sound(trace[m])
    ensures SoFar(trace, steps, w, n)
  {
    if 0 < n {
      hide Stepped, Sound, SoFar;
      SoFarAlways(trace, steps, w, n - 1);
      SoFarNext(trace, steps, w, n - 1);
    }
  }

  lemma SoFarNext(trace: seq<State>, steps: seq<Step>, w: nat, n: nat)
    requires |trace| == |steps| + 1 && n < |steps| && Sound(trace[n])
    requires Stepped(trace[n], steps[n], trace[n + 1]) && SoFar(trace, steps, w, n)
    ensures SoFar(trace, steps, w, n + 1)
  {
    hide Stepped, Sound, Spoilt, Obstructed, Scanned;
    StepKeeps(trace[n], steps[n], trace[n + 1], w);
    OneMoreStep(trace, steps, w, n);
    if w < |trace[n].cbs| {
      InRange(trace[n], w);
      if GoesOn(steps[n], w) {
        PhaseAfter(trace[n], steps[n], trace[n + 1], w);
      }
    }
  }

  lemma InRange(a: State, w: nat)
    requires Sound(a) && w < |a.cbs|
    ensures GoodCb(a.cbs[w], |a.socks|)
  {
  }

  // When call w stops being counted, it has been counted by every socket it asked for and scans them again,
  // or one of them was closed or full, and it takes back what was counted up to there.
  ghost predicate CountingEnds(trace: seq<State>, steps: seq<Step>, w: nat, n: nat)
    requires |trace| == |steps| + 1 && n < |steps|
  {
    w < |trace[n].cbs| && trace[n].cbs[w].phase.Inc? && w < |trace[n + 1].cbs| && !trace[n + 1].cbs[w].phase.Inc? ==>
      trace[n + 1].cbs[w].phase ==
        if Obstructed(trace, steps, w, n + 1) then Dec(0, trace[n].cbs[w].phase.i) else Rescan(0, false)
  }

  // When the second scan of call w ends, the call waits exactly if the scan found every socket the call
  // asked for open and not ready; and if it waits, all sockets were scanned.
  ghost predicate ScanEnds(trace: seq<State>, steps: seq<Step>, w: nat, n: nat)
    requires |trace| == |steps| + 1 && n < |steps|
  {
    w < |trace[n].cbs| && trace[n].cbs[w].phase.Rescan? && w < |trace[n + 1].cbs| && !trace[n + 1].cbs[w].phase.Rescan?
    ==>
      && trace[n + 1].cbs[w].phase ==
           (if Spoilt(trace, steps, w, n + 1) then Dec(0, trace[n].cbs[w].max) else Parked)
      && (trace[n + 1].cbs[w].phase == Parked ==>
            forall i :: 0 <= i < trace[n].cbs[w].max ==> Scanned(trace, steps, w, n, i))
  }

  // A call stops waiting exactly when it goes on signalled or with its time over, and then its counters are
  // taken back.
  ghost predicate WaitEnds(trace: seq<State>, steps: seq<Step>, w: nat, n: nat)
    requires |trace| == |steps| + 1 && n < |steps|
  {
    w < |trace[n].cbs| && trace[n].cbs[w].phase == Parked && w < |trace[n + 1].cbs| ==>
      trace[n + 1].cbs[w].phase ==
        if GoesOn(steps[n], w) && (0 < trace[n].cbs[w].signals || steps[n].timeout) then Dec(0, trace[n].cbs[w].max)
        else Parked
  }

  lemma CallsEnd(trace: seq<State>, steps: seq<Step>, w: nat, n: nat)
    requires IsRun(trace, steps) && n < |steps| && trace[0].cbs == []
    requires forall m :: 0 <= m < |trace| ==> Sound(trace[m])
    ensures CountingEnds(trace, steps, w, n) && ScanEnds(trace, steps, w, n) && WaitEnds(trace, steps, w, n)
  {
    hide Stepped, Sound, Spoilt, Obstructed, Scanned;
    SoFarAlways(trace, steps, w, n);
    StepKeeps(trace[n], steps[n], trace[n + 1], w);
    OneMoreStep(trace, steps, w, n);
    if w < |trace[n].cbs| {
      InRange(trace[n], w);
      if GoesOn(steps[n], w) {
        PhaseAfter(trace[n], steps[n], trace[n + 1], w);
      }
    }
  }

  // How many sections a call has left at most, if it does not wait.
  function Left(cb: Cb): int {
    match cb.phase
    case Inc(i) => 2 * cb.max + 4 + (cb.max - i) + 1
    case Rescan(i, _) => cb.max + 3 + (cb.max - i) + 1
    case Parked => cb.max + 3
    case Dec(i, limit) => limit - i + 1
    case Gone => 0
  }

  // Whenever a call goes on it comes nearer to its end, unless it waits and is not signalled.
  lemma ComesNearer(a: State, step: Step, b: State, w: nat)
    requires Stepped(a, step, b) && Sound(a) && w < |a.cbs| && w < |b.cbs| && GoesOn(step, w)
    requires a.cbs[w].phase != Gone && (a.cbs[w].phase == Parked ==> 0 < a.cbs[w].signals || step.timeout)
    ensures 0 <= Left(b.cbs[w]) < Left(a.cbs[w])
  {
    hide Stepped, Sound;
    InRange(a, w);
    StepKeeps(a, step, b, w);
    PhaseAfter(a, step, b, w);
  }

  // ---------------------------------------------------------------- events and signals

  function Count(steps: seq<Step>, s: nat, evt: Event): nat {
    if steps == [] then 0
    else Count(steps[..|steps| - 1], s, evt) + if steps[|steps| - 1] == Happens(s, evt) then 1 else 0
  }

  // The last event about sending on socket s was that there is room.
  predicate MaySend(steps: seq<Step>, s: nat) {
    steps != [] &&
    var rest, last := steps[..|steps| - 1], steps[|steps| - 1];
    if last == Happens(s, SENDPLUS) then true else if last == Happens(s, SENDMINUS) then false else MaySend(rest, s)
  }

  // The events of the steps are recorded in socket s.
  ghost predicate Recorded(steps: seq<Step>, s: nat, sock: Sock) {
    && sock.rcvevent == Count(steps, s, RCVPLUS) - Count(steps, s, RCVMINUS)
    && sock.sendevent == MaySend(steps, s)
    && sock.errevent == (0 < Count(steps, s, ERROR))
  }

  lemma {:induction false} EventsRecorded(trace: seq<State>, steps: seq<Step>, numSockets: nat, s: nat, n: nat)
    requires IsRun(trace, steps) && n <= |steps| && Starts(trace[0], numSockets) && s < numSockets
    ensures |trace[n].socks| == numSockets && Recorded(steps[..n], s, trace[n].socks[s])
  {
    if 0 < n {
      hide Stepped, Recorded;
      EventsRecorded(trace, steps, numSockets, s, n - 1);
      assert steps[..n][..n - 1] == steps[..n - 1];
      EventStep(trace[n - 1], steps[n - 1], trace[n], s);
      RecordedNext(steps[..n], s, trace[n - 1].socks[s], trace[n].socks[s]);
    } else {
      assert steps[..0] == [];
    }
  }

  lemma RecordedNext(steps: seq<Step>, s: nat, was: Sock, now: Sock)
    requires steps != [] && Recorded(steps[..|steps| - 1], s, was)
    requires var last := steps[|steps| - 1];
      now == (if last.Happens? && last.s == s then Happened(was, last.evt) else was).(waiting := now.waiting)
    ensures Recorded(steps, s, now)
  {
  }

  lemma EventStep(a: State, step: Step, b: State, s: nat)
    requires Stepped(a, step, b) && s < |a.socks|
    ensures |b.socks| == |a.socks|
    ensures b.socks[s] == (if step.Happens? && step.s == s then Happened(a.socks[s], step.evt) else a.socks[s])
                          .(waiting := b.socks[s].waiting)
  {
    hide WalkNext;
    StepKeeps(a, step, b, 0);
    match step {
      case WalkStep(k) =>
        if k < |a.walks| && !a.walks[k].place.Over? {
          WalkKeeps(a, k, 0);
        }
      case _ =>
    }
  }

  // Socket s was ready for b after some event on it.
  ghost predicate HadEvent(trace: seq<State>, steps: seq<Step>, s: nat, b: Bit, n: nat)
    requires |trace| == |steps| + 1 && n <= |steps|
  {
    exists m :: 0 <= m < n && EventAt(trace[m + 1], steps[m], s, b)
  }

  ghost predicate EventAt(after: State, step: Step, s: nat, b: Bit) {
    step.Happens? && step.s == s && s < |after.socks| && Ready(after.socks[s], b)
  }

  // Every walk goes on behalf of events that happened on its socket.
  ghost predicate WalksHaveEvents(trace: seq<State>, steps: seq<Step>, n: nat)
    requires |trace| == |steps| + 1 && n <= |steps|
  {
    forall k, b :: 0 <= k < |trace[n].walks| && Has(trace[n].walks[k], b) ==>
      HadEvent(trace, steps, trace[n].walks[k].s, b, n)
  }

  lemma OneMoreHadEvent(trace: seq<State>, steps: seq<Step>, s: nat, b: Bit, n: nat)
    requires |trace| == |steps| + 1 && n < |steps|
    ensures HadEvent(trace, steps, s, b, n) || EventAt(trace[n + 1], steps[n], s, b) ==>
              HadEvent(trace, steps, s, b, n + 1)
  {
    hide EventAt;
  }

  // A walk is there from before, but for its place, or goes on behalf of the event that happens.
  lemma WalkStays(a: State, step: Step, b: State, k: nat)
    requires Stepped(a, step, b) && k < |b.walks|
    ensures if k < |a.walks| then b.walks[k] == a.walks[k].(place := b.walks[k].place)
            else step.Happens? && b.walks[k].s == step.s < |b.socks|
                 && forall bit :: Has(b.walks[k], bit) <==> Ready(b.socks[step.s], bit)
  {
    hide NextEntry, AfterLook, IncNext, RescanNext, DecNext;
    match step {
      case GoOn(w, valid, timeout) =>
        if w < |a.cbs| {
          WentWalks(a, w, valid, timeout, b);
        }
      case _ =>
    }
  }

  lemma WentWalks(a: State, w: nat, valid: bool, timeout: bool, b: State)
    requires w < |a.cbs| && WentOn(a, w, valid, timeout, b)
    ensures b.walks == a.walks
  {
    hide Ready, WatchesAny;
  }

  lemma {:induction false} WalksAlways(trace: seq<State>, steps: seq<Step>, n: nat)
    requires IsRun(trace, steps) && n <= |steps| && trace[0].walks == []
    ensures WalksHaveEvents(trace, steps, n)
  {
    if 0 < n {
      hide Stepped, HadEvent, Has;
      WalksAlways(trace, steps, n - 1);
      forall k, b | 0 <= k < |trace[n].walks| && Has(trace[n].walks[k], b)
        ensures HadEvent(trace, steps, trace[n].walks[k].s, b, n)
      {
        WalkStays(trace[n - 1], steps[n - 1], trace[n], k);
        SameBits(trace[n].walks[k]);
        if k < |trace[n - 1].walks| {
          SameBits(trace[n - 1].walks[k]);
        }
        OneMoreHadEvent(trace, steps, trace[n].walks[k].s, b, n - 1);
      }
    }
  }

  lemma SameBits(walk: Walk)
    ensures forall place, b :: Has(walk.(place := place), b) == Has(walk, b)
  {
  }

  // A call is signalled once at most, and only by a walk that goes on behalf of an event the call asked for
  // in its sets; and a walk that looks at a call leaves it signalled if it goes on behalf of such an event.
  ghost predicate SignalledRightly(trace: seq<State>, steps: seq<Step>, w: nat, n: nat)
    requires |trace| == |steps| + 1 && n < |steps|
  {
    w < |trace[n].cbs| && w < |trace[n + 1].cbs| ==>
      var was, now := trace[n].cbs[w], trace[n + 1].cbs[w];
      && (now.signals != was.signals ==>
            && was.signals == 0 && now.signals == 1 && steps[n].WalkStep? && steps[n].k < |trace[n].walks|
            && var s := trace[n].walks[steps[n].k].s;
               exists b :: InSet(was, s, b) && HadEvent(trace, steps, s, b, n))
      && (steps[n].WalkStep? && steps[n].k < |trace[n].walks| && steps[n].k < |trace[n + 1].walks|
          && !trace[n].walks[steps[n].k].place.Over?
          && trace[n + 1].walks[steps[n].k].place == At(w, trace[n].ctr) ==>
            (exists b :: Has(trace[n].walks[steps[n].k], b) && InSet(was, trace[n].walks[steps[n].k].s, b)) ==>
              now.signals == 1)
  }

  lemma SignalStep(a: State, k: nat, w: nat)
    requires Sound(a) && k < |a.walks| && w < |a.cbs|
    ensures var b := WalkNext(a, k);
      && w < |b.cbs| && k < |b.walks|
      && (b.cbs[w].signals != a.cbs[w].signals ==>
            && a.cbs[w].signals == 0 && b.cbs[w].signals == 1
            && exists bit :: InSet(a.cbs[w], a.walks[k].s, bit) && Has(a.walks[k], bit))
      && ((exists bit :: Has(a.walks[k], bit) && InSet(a.cbs[w], a.walks[k].s, bit)) ==>
            b.walks[k].place == At(w, a.ctr) ==> b.cbs[w].signals == 1)
  {
    InRange(a, w);
    NextOnList(a, k);
    hide Sound, NextEntry;
  }

  lemma {:induction false} AfterOnList(list: seq<nat>, node: nat)
    ensures forall x :: x in After(list, node) ==> x in list
  {
    if list != [] {
      AfterOnList(list[1..], node);
    }
  }

  lemma NextOnList(a: State, k: nat)
    requires Sound(a) && k < |a.walks|
    ensures var x := NextEntry(a.walks[k], a.list, a.ctr); x.Some? ==> x.value < |a.cbs|
  {
    var rest := if a.walks[k].place.At? then After(a.list, a.walks[k].place.node) else [];
    if rest != [] {
      AfterOnList(a.list, a.walks[k].place.node);
      assert rest[0] in rest;
    }
    assert a.list != [] ==> a.list[0] in a.list;
    hide Counts, GoodWalks, NoneLost;
  }

  lemma SignalsAlways(trace: seq<State>, steps: seq<Step>, w: nat, n: nat)
    requires IsRun(trace, steps) && n < |steps| && trace[0].walks == []
    requires forall m :: 0 <= m < |trace| ==> Sound(trace[m])
    ensures SignalledRightly(trace, steps, w, n)
  {
    hide Sound, HadEvent, InSet, Has, WalkNext, WentOn, CallStep, EventNext;
    StepKeeps(trace[n], steps[n], trace[n + 1], w);
    WalksAlways(trace, steps, n);
    if w < |trace[n].cbs| && steps[n].WalkStep? && steps[n].k < |trace[n].walks| {
      var k := steps[n].k;
      SignalStep(trace[n], k, w);
      if !trace[n].walks[k].place.Over? {
        var s := trace[n].walks[k].s;
        if trace[n + 1].cbs[w].signals != trace[n].cbs[w].signals {
          var b :| InSet(trace[n].cbs[w], s, b) && Has(trace[n].walks[k], b);
          assert HadEvent(trace, steps, s, b, n);
        }
      }
    }
  }

  // ---------------------------------------------------------------- select_waiting

  // At this step a call does not find socket s, which counted it, as it was closed meanwhile.
  ghost predicate Misses(a: State, step: Step, s: nat) {
    && step.GoOn? && step.w < |a.cbs| && a.cbs[step.w].phase.Dec?
    && var cb := a.cbs[step.w];
       cb.phase.i == s < cb.phase.limit && WatchesAny(cb, s) && !step.valid
  }

  ghost function Missed(trace: seq<State>, steps: seq<Step>, s: nat, n: nat): nat
    requires |trace| == |steps| + 1 && n <= |steps|
  {
    if n == 0 then 0 else Missed(trace, steps, s, n - 1) + if Misses(trace[n - 1], steps[n - 1], s) then 1 else 0
  }

  // select_waiting is the number of calls that hold the socket, and of those that did not find it again.
  lemma {:induction false} WaitingExactly(trace: seq<State>, steps: seq<Step>, s: nat, n: nat)
    requires IsRun(trace, steps) && n <= |steps| && trace[0].cbs == []
    requires forall m :: 0 <= m < |trace| ==> Sound(trace[m])
    requires s < |trace[0].socks| && trace[0].socks[s].waiting == 0
    ensures s < |trace[n].socks|
    ensures trace[n].socks[s].waiting == |Holders(trace[n].cbs, s)| + Missed(trace, steps, s, n)
  {
    hide Stepped, Sound, Holders, Misses;
    if n == 0 {
      NoHolders(s);
    } else {
      WaitingExactly(trace, steps, s, n - 1);
      WaitingStep(trace[n - 1], steps[n - 1], trace[n], s);
    }
  }

  lemma NoHolders(s: nat)
    ensures Holders([], s) == {}
  {
  }

  lemma WaitingStep(a: State, step: Step, b: State, s: nat)
    requires Stepped(a, step, b) && Sound(a) && s < |a.socks|
    ensures s < |b.socks|
    ensures b.socks[s].waiting - |Holders(b.cbs, s)|
         == a.socks[s].waiting - |Holders(a.cbs, s)| + if Misses(a, step, s) then 1 else 0
  {
    hide Stepped, Sound, Holders, Holds;
    StepKeeps(a, step, b, 0);
    forall v: nat | v < |b.cbs| && !GoesOn(step, v)
      ensures Holds(b.cbs[v], s) <==> v < |a.cbs| && Holds(a.cbs[v], s)
    {
      StepKeeps(a, step, b, v);
      HoldsByPhase(if v < |a.cbs| then a.cbs[v] else b.cbs[v], b.cbs[v], s);
    }
    if step.GoOn? && step.w < |a.cbs| {
      StepKeeps(a, step, b, step.w);
      OneHolder(a.cbs, b.cbs, step.w, s);
      HoldsStep(a, step, b, s);
    } else {
      SameHolders(a.cbs, b.cbs, s);
      WaitingSame(a, step, b, s);
    }
  }

  lemma HoldsByPhase(was: Cb, now: Cb, s: nat)
    requires SameCall(was, now) && now.phase == was.phase
    ensures Holds(now, s) == Holds(was, s)
    ensures now.phase == Inc(0) ==> !Holds(now, s)
  {
  }

  lemma OneHolder(cbs: seq<Cb>, next: seq<Cb>, w: nat, s: nat)
    requires |next| == |cbs| && w < |cbs|
    requires forall v: nat :: v < |cbs| && v != w ==> Holds(next[v], s) == Holds(cbs[v], s)
    ensures |Holders(next, s)| - (if Holds(next[w], s) then 1 else 0)
         == |Holders(cbs, s)| - (if Holds(cbs[w], s) then 1 else 0)
  {
    hide Holds, Holders;
    TakeOut(Holders(next, s), w);
    TakeOut(Holders(cbs, s), w);
    OthersHold(cbs, next, w, s);
  }

  lemma OthersHold(cbs: seq<Cb>, next: seq<Cb>, w: nat, s: nat)
    requires |next| == |cbs| && w < |cbs|
    requires forall v: nat :: v < |cbs| && v != w ==> Holds(next[v], s) == Holds(cbs[v], s)
    ensures Holders(next, s) - {w} == Holders(cbs, s) - {w}
    ensures (w in Holders(next, s) <==> Holds(next[w], s)) && (w in Holders(cbs, s) <==> Holds(cbs[w], s))
  {
    hide Holds;
  }

  lemma TakeOut(s: set<nat>, w: nat)
    ensures |s| == |s - {w}| + if w in s then 1 else 0
  {
    if w in s {
      assert s == s - {w} + {w};
    } else {
      assert s == s - {w};
    }
  }

  lemma SameHolders(cbs: seq<Cb>, next: seq<Cb>, s: nat)
    requires |cbs| <= |next|
    requires forall v: nat :: v < |next| ==> (Holds(next[v], s) <==> v < |cbs| && Holds(cbs[v], s))
    ensures Holders(next, s) == Holders(cbs, s)
  {
  }

  lemma WaitingSame(a: State, step: Step, b: State, s: nat)
    requires Stepped(a, step, b) && s < |a.socks| && !(step.GoOn? && step.w < |a.cbs|)
    ensures s < |b.socks| && b.socks[s].waiting == a.socks[s].waiting && !Misses(a, step, s)
  {
    hide NextEntry, AfterLook, Ready;
  }

  // The call that goes on changes the counter as it begins or ceases to hold the socket, unless it misses it.
  lemma HoldsStep(a: State, step: Step, b: State, s: nat)
    requires Stepped(a, step, b) && Sound(a) && s < |a.socks| && step.GoOn? && step.w < |a.cbs|
    ensures |b.cbs| == |a.cbs| && s < |b.socks|
    ensures b.socks[s].waiting - (if Holds(b.cbs[step.w], s) then 1 else 0)
         == a.socks[s].waiting - (if Holds(a.cbs[step.w], s) then 1 else 0) + if Misses(a, step, s) then 1 else 0
  {
    hide Stepped, Sound, Ready, WatchesAny, Spoils;
    InRange(a, step.w);
    StepKeeps(a, step, b, step.w);
    PhaseAfter(a, step, b, step.w);
    WaitingAfter(a, step, b, s);
    SameWatches(a.cbs[step.w], b.cbs[step.w], s);
  }

  // Whether select_waiting of socket s is incremented or decremented.
  lemma WaitingAfter(a: State, step: Step, b: State, s: nat)
    requires Stepped(a, step, b) && Sound(a) && s < |a.socks| && step.GoOn? && step.w < |a.cbs|
    ensures s < |b.socks|
    ensures var cb := a.cbs[step.w];
      b.socks[s].waiting == a.socks[s].waiting +
        match cb.phase
        case Inc(i) => if i == s < cb.max && WatchesAny(cb, s) && !Obstructs(a, step, step.w) then 1 else 0
        case Dec(i, limit) => if i == s < limit && WatchesAny(cb, s) && step.valid then -1 else 0
        case _ => 0
  {
    hide Ready, Watches;
    InRange(a, step.w);
    if Holds(a.cbs[step.w], s) {
      HolderCounts(a.cbs, a.socks, step.w, s);
    }
  }

  lemma SameWatches(was: Cb, now: Cb, s: nat)
    requires SameCall(was, now)
    ensures WatchesAny(now, s) == WatchesAny(was, s) && (WatchesAny(was, s) ==> s < was.max)
  {
  }

  // ---------------------------------------------------------------- every interleaving

  lemma IsSound(selects: Selects)
    requires selects.Valid()
    ensures Sound(selects.Now())
  {
  }

  lemma RunOn(trace: seq<State>, steps: seq<Step>, i: nat, now: State)
    requires i < |steps| && IsRun(trace, steps[..i]) && Stepped(trace[i], steps[i], now)
    ensures IsRun(trace + [now], steps[..i + 1])
  {
    hide Stepped;
  }

  // A call of lwip_select begins with its entry in front of the list, asking for what it was given.
  ghost predicate CallEnters(a: State, step: Step, b: State) {
    step.Call? && step.max <= |a.socks| ==>
      && |b.cbs| == |a.cbs| + 1 && b.list == [|a.cbs|] + a.list
      && var cb := b.cbs[|a.cbs|];
         && cb.readset == step.readset && cb.writeset == step.writeset && cb.exceptset == step.exceptset
         && cb.max == step.max && cb.phase == Inc(0) && cb.signals == 0
  }

  lemma CallsEnter(a: State, step: Step, b: State)
    requires Stepped(a, step, b)
    ensures CallEnters(a, step, b)
  {
    if step.Call? && step.max <= |a.socks| {
      CallKeeps(a, NewCb(step.readset, step.writeset, step.exceptset, step.max), b, |a.cbs|);
    }
  }

  // A walk looks at the first entry, or at the one behind the entry it looked at last if the list is still the
  // same, and it is over behind the last one.
  ghost predicate WalkMoves(a: State, step: Step, b: State) {
    step.WalkStep? && step.k < |a.walks| && !a.walks[step.k].place.Over? ==>
      && |b.walks| == |a.walks|
      && var was, now := a.walks[step.k].place, b.walks[step.k].place;
         if was.At? && was.last == a.ctr then
           forall i :: 0 <= i < |a.list| && a.list[i] == was.node ==>
             now == if i + 1 < |a.list| then At(a.list[i + 1], a.ctr) else Over
         else now == if a.list != [] then At(a.list[0], a.ctr) else Over
  }

  lemma WalksMove(a: State, step: Step, b: State)
    requires Stepped(a, step, b) && Sound(a)
    ensures WalkMoves(a, step, b)
  {
    if step.WalkStep? && step.k < |a.walks| && !a.walks[step.k].place.Over? {
      NextOnList(a, step.k);
      var place := a.walks[step.k].place;
      forall i | 0 <= i < |a.list| && place.At? && a.list[i] == place.node
        ensures After(a.list, place.node) == a.list[i + 1..]
      {
        AfterAt(a.list, i);
      }
      hide Sound, After, AfterLook;
    }
  }

  // What every step of a run does to every call.
  ghost predicate CallsServed(trace: seq<State>, steps: seq<Step>)
    requires |trace| == |steps| + 1
  {
    && (forall n: nat :: n < |steps| ==>
          CallEnters(trace[n], steps[n], trace[n + 1]) && WalkMoves(trace[n], steps[n], trace[n + 1]))
    && forall w: nat, n: nat :: n < |steps| ==>
      && CountingEnds(trace, steps, w, n) && ScanEnds(trace, steps, w, n) && WaitEnds(trace, steps, w, n)
      && SignalledRightly(trace, steps, w, n)
  }

  lemma AllServed(trace: seq<State>, steps: seq<Step>, numSockets: nat)
    requires SoundRun(trace, steps, numSockets)
    ensures CallsServed(trace, steps)
  {
    hide Sound, CountingEnds, ScanEnds, WaitEnds, SignalledRightly, Stepped, CallEnters, WalkMoves;
    forall n: nat | n < |steps|
      ensures CallEnters(trace[n], steps[n], trace[n + 1]) && WalkMoves(trace[n], steps[n], trace[n + 1])
    {
      CallsEnter(trace[n], steps[n], trace[n + 1]);
      WalksMove(trace[n], steps[n], trace[n + 1]);
    }
    forall w: nat, n: nat | n < |steps|
      ensures CountingEnds(trace, steps, w, n) && ScanEnds(trace, steps, w, n)
      ensures WaitEnds(trace, steps, w, n) && SignalledRightly(trace, steps, w, n)
    {
      CallsEnd(trace, steps, w, n);
      SignalsAlways(trace, steps, w, n);
    }
  }

  // Every interleaving: the steps are taken, one after the other, and after each of them no wake-up is
  // lost, no call was signalled twice, and a walk between two entries stands on an entry of the list unless
  // the list has changed, and then it starts again.  Calls wait, are signalled and end as CallsServed says,
  // the sockets have recorded all events, and select_waiting counts the calls that hold the socket.
  method Run(numSockets: nat, steps: seq<Step>) returns (selects: Selects, ghost trace: seq<State>)
    ensures selects.Valid() && SoundRun(trace, steps, numSockets) && trace[|steps|] == selects.Now()
    ensures forall w :: 0 <= w < |selects.cbs| ==> selects.cbs[w].signals <= 1
    ensures CallsServed(trace, steps)
    ensures |selects.socks| == numSockets && forall s :: 0 <= s < numSockets ==>
      && Recorded(steps, s, selects.socks[s])
      && selects.socks[s].waiting == |Holders(selects.cbs, s)| + Missed(trace, steps, s, |steps|)
  {
    selects, trace := Steps(numSockets, steps);
    hide Sound, Stepped, Recorded, CallsServed, Holders;
    AllServed(trace, steps, numSockets);
    assert steps[..|steps|] == steps;
    SocketsKept(trace, steps, numSockets, |steps|);
    forall s: nat | s < numSockets
      ensures Recorded(steps, s, selects.socks[s])
      ensures selects.socks[s].waiting == |Holders(selects.cbs, s)| + Missed(trace, steps, s, |steps|)
    {
      EventsRecorded(trace, steps, numSockets, s, |steps|);
      WaitingExactly(trace, steps, s, |steps|);
    }
  }

  lemma {:induction false} SocketsKept(trace: seq<State>, steps: seq<Step>, numSockets: nat, n: nat)
    requires IsRun(trace, steps) && n <= |steps| && Starts(trace[0], numSockets)
    ensures |trace[n].socks| == numSockets
  {
    if 0 < n {
      hide Stepped;
      SocketsKept(trace, steps, numSockets, n - 1);
      StepKeeps(trace[n - 1], steps[n - 1], trace[n], 0);
    }
  }

  method Steps(numSockets: nat, steps: seq<Step>) returns (selects: Selects, ghost trace: seq<State>)
    ensures fresh(selects) && selects.Valid() && SoundRun(trace, steps, numSockets) && trace[|steps|] == selects.Now()
    ensures forall w :: 0 <= w < |selects.cbs| ==> selects.cbs[w].signals <= 1
  {
    selects := new Selects(numSockets);
    trace := [selects.Now()];
    for i := 0 to |steps|
      invariant fresh(selects) && selects.Valid() && SoundRun(trace, steps[..i], numSockets)
      invariant trace[i] == selects.Now()
    {
      hide Stepped, Sound;
      Perform(selects, steps[i]);
      IsSound(selects);
      RunOn(trace, steps, i, selects.Now());
      trace := trace + [selects.Now()];
    }
    assert steps[..|steps|] == steps;
  }
}
