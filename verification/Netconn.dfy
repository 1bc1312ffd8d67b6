// api_msg.c: how the requests on a TCP netconn are parked, resumed by TCP callbacks and acknowledged
// (no full duplex, no core locking, no send timeout and no linger).
module Netconn {
  import opened Wrappers
  import opened NetconnWrite

  datatype State = NETCONN_NONE | NETCONN_WRITE | NETCONN_LISTEN | NETCONN_CONNECT | NETCONN_CLOSE

  // LWIP_TCP_CLOSE_TIMEOUT_MS_DEFAULT in units of TCP_SLOW_INTERVAL
  const POLLS: nat := (20000 + 500 - 1) / 500 + 1

  // msg.w, msg.sd, and the requests that need no state
  datatype Kind =
    | Connect
    | Write(w: Cursor, dontblock: bool)
    | Close(rd: bool, wr: bool, pollsLeft: nat)
    | Other

  // struct api_msg; acks counts how often its semaphore was signalled
  datatype Msg = Msg(kind: Kind, err: Err, acks: nat)

  ghost predicate GoodMsg(m: Msg) {
    m.kind.Write? ==>
      && GoodCursor(m.kind.w)
      && (0 < m.acks && m.err == ERR_OK ==>
            if m.kind.dontblock then 0 < m.kind.w.offset else m.kind.w.offset == m.kind.w.len)
  }

  // The one request that is not acknowledged is the parked one, and no other was acknowledged twice.
  ghost predicate AllButOneAcked(msgs: seq<Msg>, current: Option<nat>) {
    forall m :: 0 <= m < |msgs| ==> GoodMsg(msgs[m]) && msgs[m].acks == if current == Some(m) then 0 else 1
  }

  // A request that was acknowledged stays as it is.
  ghost predicate Settled(was: seq<Msg>, now: seq<Msg>) {
    |was| <= |now| && forall m :: 0 <= m < |was| && 0 < was[m].acks ==> now[m] == was[m]
  }

  // A parked write goes on with what TCP answers.
  ghost predicate WriteGoesOn(was: Msg, now: Msg, nonblocking: bool, rounds: seq<Round>, outRte: bool, looping: bool) {
    && was.kind.Write? && GoodCursor(was.kind.w) && now.kind.Write?
    && now.kind.dontblock == (nonblocking || was.kind.dontblock) && (now.acks == 0 ==> now.err == was.err)
    && Wrote(was.kind.w, nonblocking || was.kind.dontblock, rounds, outRte, now.kind.w,
             Outcome(0 < now.acks, now.err, looping))
  }

  // A request that an application makes, or a callback of TCP, with what TCP answers.
  datatype Step =
    | ApiConnect(result: Err)
    | ApiListen(closed: bool, lpcb: bool, mbox: bool)
    | ApiWrite(vectors: seq<seq<byte>>, dontblock: bool, rounds: seq<Round>, outRte: bool)
    | ApiClose(rd: bool, wr: bool, half: bool, result: Err)
    | ApiDelete(result: Err)
    | TcpConnected(err: Err)
    | TcpSent(half: bool, result: Err, rounds: seq<Round>, outRte: bool)
    | TcpPoll(half: bool, result: Err, rounds: seq<Round>, outRte: bool)
    | TcpErr(err: Err)

  // ---------------------------------------------------------------- what a step does

  // struct netconn, with all its requests
  datatype Net = Net(state: State, pcb: bool, hooked: bool, nonblocking: bool, inNonblockingConnect: bool,
                     pendingErr: Err, current: Option<nat>, msgs: seq<Msg>, polls: nat)

  // A request is answered at once.
  function Answered(a: Net, kind: Kind, err: Err): Net {
    a.(msgs := a.msgs + [Msg(kind, err, 1)])
  }

  // A request is parked.
  function ParkedIn(a: Net, kind: Kind, err: Err, state: State): Net {
    a.(msgs := a.msgs + [Msg(kind, err, 0)], state := state, current := Some(|a.msgs|))
  }

  // The parked request is done.
  function Completed(a: Net, err: Err): Net
    requires a.current.Some? && a.current.value < |a.msgs|
  {
    var m := a.current.value;
    a.(msgs := a.msgs[m := a.msgs[m].(err := err, acks := 1)], current := None, state := NETCONN_NONE)
  }

  // lwip_netconn_do_close_internal: the close keeps waiting if memory is short and polls are left, and
  // otherwise it is acknowledged.
  function CloseGoesOn(a: Net, half: bool, result: Err, listening: bool): Net
    requires a.current.Some? && a.current.value < |a.msgs| && a.msgs[a.current.value].kind.Close?
  {
    var k := a.msgs[a.current.value].kind;
    var shutClose := (k.rd && k.wr) || half;
    if result == ERR_MEM && 0 < k.pollsLeft then a.(hooked := true)
    else
      var err := if result == ERR_MEM && shutClose then ERR_OK else result;
      var b := if shutClose && !listening then a.(hooked := false) else a;
      Completed(if err == ERR_OK && shutClose then b.(pcb := false) else b, err)
  }

  // A close is requested of a netconn that nothing keeps from closing.
  function CloseBegins(a: Net, rd: bool, wr: bool, err: Err, half: bool, result: Err): Net {
    CloseGoesOn(ParkedIn(a, Close(rd, wr, POLLS), err, NETCONN_CLOSE).(polls := 0), half, result,
                a.state == NETCONN_LISTEN)
  }

  // lwip_netconn_do_close, while no close is running
  function CloseNext(a: Net, rd: bool, wr: bool, half: bool, result: Err): Net {
    if !a.pcb || (a.state == NETCONN_LISTEN && !(rd && wr)) || a.state == NETCONN_CONNECT then
      Answered(a, Close(rd, wr, POLLS), ERR_CONN)
    else if a.state == NETCONN_WRITE then Answered(a, Close(rd, wr, POLLS), ERR_INPROGRESS)
    else CloseBegins(a, rd, wr, ERR_VAL, half, result)
  }

  // lwip_netconn_do_delconn
  function DeleteNext(a: Net, result: Err): Net {
    if a.state == NETCONN_WRITE || a.state == NETCONN_CLOSE || (a.state == NETCONN_CONNECT && !a.inNonblockingConnect)
    then Answered(a, Close(true, true, POLLS), ERR_INPROGRESS)
    else if a.pcb then CloseBegins(a, true, true, ERR_OK, false, result)
    else Answered(a, Close(true, true, POLLS), ERR_OK)
  }

  // lwip_netconn_do_connect
  function ConnectNext(a: Net, result: Err): Net {
    if !a.pcb then Answered(a, Connect, ERR_CLSD)
    else if a.state == NETCONN_CONNECT then Answered(a, Connect, ERR_ALREADY)
    else if a.state != NETCONN_NONE then Answered(a, Connect, ERR_ISCONN)
    else
      var b := a.(hooked := true);
      if result != ERR_OK then Answered(b, Connect, result)
      else if a.nonblocking then
        Answered(b.(state := NETCONN_CONNECT, inNonblockingConnect := true), Connect, ERR_INPROGRESS)
      else ParkedIn(b.(inNonblockingConnect := false), Connect, ERR_VAL, NETCONN_CONNECT)
  }

  // lwip_netconn_do_connected
  function ConnectedNext(a: Net, err: Err): Net {
    var b := a.(inNonblockingConnect := false);
    if b.current.Some? && b.current.value < |b.msgs| then Completed(b, err) else b.(state := NETCONN_NONE)
  }

  // lwip_netconn_do_listen
  function ListenNext(a: Net, closed: bool, lpcb: bool, mbox: bool): Net {
    if !a.pcb then Answered(a, Other, ERR_CONN)
    else if a.state == NETCONN_LISTEN then Answered(a, Other, ERR_OK)
    else if a.state != NETCONN_NONE then Answered(a, Other, ERR_CONN)
    else if !closed then Answered(a, Other, ERR_VAL)
    else if !lpcb then Answered(a, Other, ERR_MEM)
    else if mbox then Answered(a.(state := NETCONN_LISTEN), Other, ERR_OK)
    else Answered(a.(pcb := false), Other, ERR_MEM)
  }

  // lwip_netconn_do_writemore: the parked write goes on with what TCP answers, and is acknowledged if it
  // is finished.
  ghost predicate WriteStep(a: Net, rounds: seq<Round>, outRte: bool, looping: bool, b: Net) {
    && a.current.Some? && a.current.value < |a.msgs| == |b.msgs|
    && var m := a.current.value; var now := b.msgs[m];
       && WriteGoesOn(a.msgs[m], now, a.nonblocking, rounds, outRte, looping)
       && b == if now.acks == 0 then a.(msgs := a.msgs[m := now])
               else a.(msgs := a.msgs[m := now], state := NETCONN_NONE, current := None)
  }

  // lwip_netconn_do_write
  ghost predicate WriteBegins(a: Net, vectors: seq<seq<byte>>, dontblock: bool, rounds: seq<Round>, outRte: bool,
                              looping: bool, b: Net)
  {
    var kind, quiet := Write(Beginning(vectors), dontblock), a.(pendingErr := ERR_OK);
    if a.pendingErr != ERR_OK then b == Answered(quiet, kind, a.pendingErr) && !looping
    else if a.state != NETCONN_NONE then b == Answered(quiet, kind, ERR_INPROGRESS) && !looping
    else if a.pcb then WriteStep(ParkedIn(quiet, kind, ERR_VAL, NETCONN_WRITE), rounds, outRte, looping, b)
    else b == Answered(quiet, kind, ERR_CONN) && !looping
  }

  // sent_tcp: the parked write or close goes on.
  ghost predicate SentStep(a: Net, half: bool, result: Err, rounds: seq<Round>, outRte: bool, looping: bool, b: Net) {
    if a.state == NETCONN_WRITE then WriteStep(a, rounds, outRte, looping, b)
    else
      && !looping
      && if a.state == NETCONN_CLOSE then WaitingClose(a) && b == CloseGoesOn(a, half, result, false) else b == a
  }

  predicate WaitingClose(a: Net) {
    a.current.Some? && a.current.value < |a.msgs| && a.msgs[a.current.value].kind.Close?
  }

  // A poll is used up by a close that waits.
  function Polled(a: Net): Net {
    if a.state == NETCONN_CLOSE && WaitingClose(a) then
      var m := a.current.value;
      var left := a.msgs[m].kind.pollsLeft;
      a.(msgs := a.msgs[m := a.msgs[m].(kind := a.msgs[m].kind.(pollsLeft := if 0 < left then left - 1 else 0))],
         polls := a.polls + 1)
    else a
  }

  // err_tcp.  A flag that a connect left behind makes it forget the parked request.
  function ErrNext(a: Net, err: Err): Net {
    var b := a.(pcb := false, pendingErr := err, state := NETCONN_NONE);
    if a.state == NETCONN_NONE || a.state == NETCONN_LISTEN then b
    else
      var c := b.(inNonblockingConnect := false);
      if !a.inNonblockingConnect && a.current.Some? && a.current.value < |a.msgs| then
        Completed(c, if a.state == NETCONN_CLOSE then ERR_OK else err)
      else c
  }

  // When a step can happen: applications may ask for anything at any time, except for a close while
  // another one is running; TCP calls back only what is registered, does not fail to close a pcb that
  // listens or is still connecting, and a write is not empty.
  predicate Possible(state: State, pcb: bool, hooked: bool, step: Step) {
    match step
    case ApiConnect(_) => true
    case ApiListen(_, _, _) => true
    case ApiWrite(vectors, _, rounds, _) => NonEmpty(vectors) && forall k :: 0 <= k < |rounds| ==> GoodRound(rounds[k])
    case ApiClose(_, _, _, result) => !(pcb && state == NETCONN_CLOSE) && (state == NETCONN_LISTEN ==> result == ERR_OK)
    case ApiDelete(result) => state == NETCONN_LISTEN || state == NETCONN_CONNECT ==> result == ERR_OK
    case TcpConnected(_) => state == NETCONN_CONNECT
    case TcpSent(_, _, rounds, _) => pcb && hooked && forall k :: 0 <= k < |rounds| ==> GoodRound(rounds[k])
    case TcpPoll(_, _, rounds, _) => pcb && hooked && forall k :: 0 <= k < |rounds| ==> GoodRound(rounds[k])
    case TcpErr(err) => pcb && hooked && state != NETCONN_LISTEN && err != ERR_OK
  }

  // What a step does; looping says that a write is still in its loop when the answers of TCP run out.
  ghost predicate Stepped(a: Net, step: Step, looping: bool, b: Net) {
    if !Possible(a.state, a.pcb, a.hooked, step) then b == a && !looping
    else
      match step
      case ApiConnect(result) => b == ConnectNext(a, result) && !looping
      case ApiListen(closed, lpcb, mbox) => b == ListenNext(a, closed, lpcb, mbox) && !looping
      case ApiWrite(vectors, dontblock, rounds, outRte) =>
        WriteBegins(a, vectors, dontblock, rounds, outRte, looping, b)
      case ApiClose(rd, wr, half, result) => b == CloseNext(a, rd, wr, half, result) && !looping
      case ApiDelete(result) => b == DeleteNext(a, result) && !looping
      case TcpConnected(err) => b == ConnectedNext(a, err) && !looping
      case TcpSent(half, result, rounds, outRte) => SentStep(a, half, result, rounds, outRte, looping, b)
      case TcpPoll(half, result, rounds, outRte) => SentStep(Polled(a), half, result, rounds, outRte, looping, b)
      case TcpErr(err) => b == ErrNext(a, err) && !looping
  }

  class Conn {
    var state: State
    var pcb: bool                     // pcb.tcp is not NULL
    var hooked: bool                  // arg, poll and err callbacks are set in the pcb
    const nonblocking: bool           // netconn_is_nonblocking
    var inNonblockingConnect: bool    // NETCONN_FLAG_IN_NONBLOCKING_CONNECT
    var pendingErr: Err               // pending_err
    var current: Option<nat>          // current_msg
    var msgs: seq<Msg>                // every request on this netconn
    ghost var polls: nat              // the poll_tcp calls since the running close was requested

    ghost function Now(): Net
      reads this
    {
      Net(state, pcb, hooked, nonblocking, inNonblockingConnect, pendingErr, current, msgs, polls)
    }

    ghost predicate Busy()
      reads `state, `inNonblockingConnect
    {
      state == NETCONN_WRITE || state == NETCONN_CLOSE || (state == NETCONN_CONNECT && !inNonblockingConnect)
    }

    // The parked request fits the state of the netconn.
    ghost predicate Parked()
      reads `state, `msgs, `current, `polls
      requires current.Some? && current.value < |msgs|
    {
      var k := msgs[current.value].kind;
      match state
      case NETCONN_WRITE => k.Write? && k.w.offset < k.w.len
      case NETCONN_CLOSE => k.Close? && 0 < k.pollsLeft && polls + k.pollsLeft == POLLS
      case _ => k.Connect?
    }

    ghost predicate Consistent()
      reads this
    {
      && AllButOneAcked(msgs, current)
      && (current.Some? <==> Busy())
      && (current.Some? ==> current.value < |msgs| && pcb && Parked())
      && (state == NETCONN_LISTEN ==> pcb)
      && (state == NETCONN_CONNECT || state == NETCONN_CLOSE ==> pcb && hooked)
    }

    // NETCONN_FLAG_IN_NONBLOCKING_CONNECT outlives the connect.
    ghost predicate StaleFlag()
      reads `inNonblockingConnect, `state, `pcb
    {
      inNonblockingConnect && state != NETCONN_CONNECT && pcb
    }

    ghost predicate Valid()
      reads this
    {
      Consistent() && !StaleFlag()
    }

    // The unacknowledged requests: exactly the parked one, whose pcb exists.
    lemma Unacknowledged(m: nat)
      requires Valid() && m < |msgs|
      ensures msgs[m].acks <= 1
      ensures msgs[m].acks == 0 <==> current == Some(m)
      ensures msgs[m].acks == 0 ==> pcb && match msgs[m].kind
              case Write(_, _) => state == NETCONN_WRITE
              case Close(_, _, _) => state == NETCONN_CLOSE
              case Connect => state == NETCONN_CONNECT && !inNonblockingConnect
              case Other => false
    {
    }

    // A close waits for less than POLLS polls.
    lemma CloseSoonEnds()
      requires Valid() && state == NETCONN_CLOSE
      ensures polls < POLLS == 41
    {
    }

    constructor (nonblocking: bool)
      ensures Valid() && Now() == Net(NETCONN_NONE, true, true, nonblocking, false, ERR_OK, None, [], 0)
    {
      state, pcb, hooked, this.nonblocking, inNonblockingConnect := NETCONN_NONE, true, true, nonblocking, false;
      pendingErr, current, msgs, polls := ERR_OK, None, [], 0;
    }

    // The semaphore of a request; it is never signalled a second time.
    method Signal(m: nat, err: Err)
      requires m < |msgs| && msgs[m].acks == 0
      modifies `msgs
      ensures msgs == old(msgs)[m := old(msgs)[m].(err := err, acks := 1)]
    {
      msgs := msgs[m := msgs[m].(err := err, acks := msgs[m].acks + 1)];
    }

    // A request that is answered at once.
    method Answer(kind: Kind, err: Err)
      requires Valid() && GoodMsg(Msg(kind, err, 1))
      modifies `msgs
      ensures Valid() && Settled(old(msgs), msgs) && msgs == old(msgs) + [Msg(kind, err, 1)]
    {
      msgs := msgs + [Msg(kind, err, 0)];
      Signal(|msgs| - 1, err);
    }

    // A request that is parked.
    method Park(kind: Kind, err: Err, waiting: State)
      requires AllButOneAcked(msgs, None) && GoodMsg(Msg(kind, err, 0))
      modifies `msgs, `state, `current
      ensures AllButOneAcked(msgs, current) && Settled(old(msgs), msgs)
      ensures msgs == old(msgs) + [Msg(kind, err, 0)] && current == Some(|old(msgs)|) && state == waiting
      ensures Now() == ParkedIn(old(Now()), kind, err, waiting)
    {
      msgs, state, current := msgs + [Msg(kind, err, 0)], waiting, Some(|msgs|);
    }

    // The parked request is done.
    method Complete(err: Err)
      requires AllButOneAcked(msgs, current) && current.Some? && current.value < |msgs|
      requires GoodMsg(msgs[current.value].(err := err, acks := 1))
      modifies `msgs, `current, `state
      ensures AllButOneAcked(msgs, None) && current == None && state == NETCONN_NONE
      ensures Settled(old(msgs), msgs) && Now() == Completed(old(Now()), err)
    {
      var m := current.value;
      current, state := None, NETCONN_NONE;
      Signal(m, err);
    }

    // ---------------------------------------------------------------- close

    // lwip_netconn_do_close_internal: half says that the other direction was shut down before, result
    // what tcp_close or tcp_shutdown returns.
    method CloseInternal(half: bool, result: Err, listening: bool)
      requires AllButOneAcked(msgs, current) && current.Some? && current.value < |msgs|
      requires state == NETCONN_CLOSE && pcb && msgs[current.value].kind.Close?
      requires polls + msgs[current.value].kind.pollsLeft == POLLS
      requires listening ==> result == ERR_OK
      modifies this
      ensures Consistent() && inNonblockingConnect == old(inNonblockingConnect) && (!pcb ==> state == NETCONN_NONE)
      ensures Settled(old(msgs), msgs) && Now() == CloseGoesOn(old(Now()), half, result, listening)
    {
      Unchanged(msgs);
      hide AllButOneAcked, Settled, Completed;
      var k := msgs[current.value].kind;
      var shutClose := (k.rd && k.wr) || half;
      if shutClose && !listening {
        hooked := false;
      }
      var finished, err := Tried(shutClose, k.pollsLeft, result);
      if finished {
        EndClose(err, shutClose);
      } else {
        hooked := true;
      }
    }

    // What the result of tcp_close or tcp_shutdown means for the request.
    method Tried(shutClose: bool, pollsLeft: nat, result: Err) returns (finished: bool, err: Err)
      ensures finished <==> !(result == ERR_MEM && 0 < pollsLeft)
      ensures err == if finished && result == ERR_MEM && shutClose then ERR_OK else result
    {
      finished, err := false, result;
      if err == ERR_OK {
        finished := true;
      } else if err == ERR_MEM {
        if pollsLeft == 0 {
          finished := true;
          if shutClose {
            err := ERR_OK;
          }
        }
      } else {
        finished := true;
      }
    }

    // The parked close is done.
    method EndClose(err: Err, shutClose: bool)
      requires AllButOneAcked(msgs, current) && current.Some? && current.value < |msgs|
      requires state == NETCONN_CLOSE && pcb && msgs[current.value].kind.Close?
      modifies this
      ensures Consistent() && state == NETCONN_NONE && Settled(old(msgs), msgs)
      ensures inNonblockingConnect == old(inNonblockingConnect)
      ensures Now() == Completed(if err == ERR_OK && shutClose then old(Now()).(pcb := false) else old(Now()), err)
    {
      hide Settled;
      Complete(err);
      if err == ERR_OK && shutClose {
        pcb := false;
      }
    }

    // A close is parked, and tried at once.
    method BeginClose(rd: bool, wr: bool, err: Err, half: bool, result: Err)
      requires Valid() && pcb && current.None? && (state == NETCONN_LISTEN ==> result == ERR_OK)
      modifies this
      ensures Consistent() && inNonblockingConnect == old(inNonblockingConnect) && (!pcb ==> state == NETCONN_NONE)
      ensures Settled(old(msgs), msgs) && Now() == CloseBegins(old(Now()), rd, wr, err, half, result)
    {
      hide AllButOneAcked, Settled, CloseGoesOn;
      var listening := state == NETCONN_LISTEN;
      ghost var before := msgs;
      Park(Close(rd, wr, POLLS), err, NETCONN_CLOSE);
      polls := 0;
      ghost var between := msgs;
      CloseInternal(half, result, listening);
      SettledTwice(before, between, msgs);
    }

    // lwip_netconn_do_close; asserted is the failing assertion that no request is parked.
    method DoClose(rd: bool, wr: bool, half: bool, result: Err) returns (asserted: bool)
      requires Valid() && (state == NETCONN_LISTEN ==> result == ERR_OK)
      modifies this
      ensures asserted <==> old(pcb) && old(state) == NETCONN_CLOSE
      ensures asserted ==> unchanged(this)
      ensures !asserted ==> Valid() && Settled(old(msgs), msgs) && |msgs| == |old(msgs)| + 1
      ensures !asserted ==> Now() == CloseNext(old(Now()), rd, wr, half, result)
      // refused: nothing changes but the answer
      ensures !old(pcb) || old(state) == NETCONN_CONNECT || old(state) == NETCONN_WRITE
              || (old(state) == NETCONN_LISTEN && !(rd && wr)) ==>
                && state == old(state) && current == old(current) && pcb == old(pcb)
                && msgs == old(msgs) + [Msg(Close(rd, wr, POLLS),
                                            if old(pcb) && state == NETCONN_WRITE then ERR_INPROGRESS else ERR_CONN, 1)]
      // otherwise it is closed, or waits for memory
      ensures old(pcb) && (old(state) == NETCONN_NONE || (old(state) == NETCONN_LISTEN && rd && wr)) ==>
                && (result == ERR_MEM <==> state == NETCONN_CLOSE)
                && (state == NETCONN_CLOSE ==> current == Some(|msgs| - 1) && polls == 0)
                && (state != NETCONN_CLOSE ==> state == NETCONN_NONE && msgs[|msgs| - 1].err == result)
                && (pcb <==> !(result == ERR_OK && ((rd && wr) || half)))
    {
      CloseMeans(Now(), rd, wr, half, result);
      hide CloseBegins, AllButOneAcked, Settled;
      asserted := false;
      if pcb && ((rd && wr) || state != NETCONN_LISTEN) {
        if state == NETCONN_CONNECT {
          Answer(Close(rd, wr, POLLS), ERR_CONN);
        } else if state == NETCONN_WRITE {
          Answer(Close(rd, wr, POLLS), ERR_INPROGRESS);
        } else {
          if current.Some? {
            return true;
          }
          BeginClose(rd, wr, ERR_VAL, half, result);
        }
      } else {
        Answer(Close(rd, wr, POLLS), ERR_CONN);
      }
    }

    // lwip_netconn_do_delconn.  If it deletes a netconn that is still connecting, which only happens if
    // that is nonblocking, and the pcb cannot be closed, the flag of the connect stays behind.
    method DoDelconn(result: Err)
      requires Valid() && (state == NETCONN_LISTEN ==> result == ERR_OK)
      modifies this
      ensures Consistent()
      ensures Valid() <==> (old(state) == NETCONN_CONNECT && old(inNonblockingConnect) ==> result == ERR_OK)
      ensures Settled(old(msgs), msgs) && |msgs| == |old(msgs)| + 1 && Now() == DeleteNext(old(Now()), result)
      ensures old(current).Some? ==>
                && state == old(state) && current == old(current) && pcb == old(pcb)
                && msgs == old(msgs) + [Msg(Close(true, true, POLLS), ERR_INPROGRESS, 1)]
      ensures old(current).None? ==>
                && (result == ERR_OK || !old(pcb) ==> !pcb && msgs[|msgs| - 1].err == ERR_OK && current == None)
                && (result == ERR_MEM && old(pcb) ==>
                      state == NETCONN_CLOSE && current == Some(|msgs| - 1) && polls == 0)
    {
      DeleteMeans(Now(), result);
      hide CloseBegins, AllButOneAcked, Settled;
      if (state != NETCONN_NONE && state != NETCONN_LISTEN && state != NETCONN_CONNECT)
         || (state == NETCONN_CONNECT && !inNonblockingConnect) {
        Answer(Close(true, true, POLLS), ERR_INPROGRESS);
      } else if pcb {
        BeginClose(true, true, ERR_OK, false, result);
      } else {
        Answer(Close(true, true, POLLS), ERR_OK);
      }
    }

    // ---------------------------------------------------------------- connect and listen

    // lwip_netconn_do_connect; result is what tcp_connect returns
    method DoConnect(result: Err)
      requires Valid()
      modifies this
      ensures Valid() && Settled(old(msgs), msgs) && |msgs| == |old(msgs)| + 1
      ensures Now() == ConnectNext(old(Now()), result)
    {
      hide AllButOneAcked, Settled;
      if !pcb {
        Answer(Connect, ERR_CLSD);
      } else if state == NETCONN_CONNECT {
        Answer(Connect, ERR_ALREADY);
      } else if state != NETCONN_NONE {
        Answer(Connect, ERR_ISCONN);
      } else {
        hooked := true;
        if result != ERR_OK {
          Answer(Connect, result);
        } else {
          inNonblockingConnect := nonblocking;
          if nonblocking {
            state := NETCONN_CONNECT;
            Answer(Connect, ERR_INPROGRESS);
          } else {
            Park(Connect, ERR_VAL, NETCONN_CONNECT);
          }
        }
      }
    }

    // lwip_netconn_do_connected, called by TCP while it is connecting
    method DoConnected(err: Err)
      requires Valid() && state == NETCONN_CONNECT
      modifies this
      ensures Valid() && Settled(old(msgs), msgs) && state == NETCONN_NONE && |msgs| == |old(msgs)|
      ensures Now() == ConnectedNext(old(Now()), err)
      ensures old(current).Some? ==> msgs[old(current).value] == Msg(Connect, err, 1)
    {
      inNonblockingConnect := false;
      if current.Some? {
        Complete(err);
      } else {
        state := NETCONN_NONE;
      }
    }

    // lwip_netconn_do_listen: closed says that the pcb is closed, lpcb that a listening pcb could be
    // had, mbox that the mailbox could be had.
    method DoListen(closed: bool, lpcb: bool, mbox: bool)
      requires Valid()
      modifies this
      ensures Valid() && Settled(old(msgs), msgs) && |msgs| == |old(msgs)| + 1
      ensures Now() == ListenNext(old(Now()), closed, lpcb, mbox)
      ensures msgs[|msgs| - 1].acks == 1 && (msgs[|msgs| - 1].err == ERR_OK <==> state == NETCONN_LISTEN)
      ensures state == (if old(pcb) && old(state) == NETCONN_NONE && closed && lpcb && mbox then NETCONN_LISTEN
                        else old(state))
      ensures pcb <==> old(pcb) && !(old(state) == NETCONN_NONE && closed && lpcb && !mbox)
    {
      var err := ERR_CONN;
      if pcb {
        if state == NETCONN_NONE {
          if !closed {
            err := ERR_VAL;
          } else if !lpcb {
            err := ERR_MEM;
          } else if mbox {
            err, state := ERR_OK, NETCONN_LISTEN;
          } else {
            err, pcb := ERR_MEM, false;
          }
        } else if state == NETCONN_LISTEN {
          err := ERR_OK;
        }
      }
      Answer(Other, err);
    }

    // ---------------------------------------------------------------- write

    // lwip_netconn_do_writemore; looping says that it did not return within the given rounds
    method WriteOn(rounds: seq<Round>, outRte: bool) returns (looping: bool)
      requires AllButOneAcked(msgs, current) && current.Some? && current.value < |msgs|
      requires state == NETCONN_WRITE && pcb && !inNonblockingConnect && Parked()
      requires forall k :: 0 <= k < |rounds| ==> GoodRound(rounds[k])
      modifies this
      ensures Valid() && Settled(old(msgs), msgs) && WriteStep(old(Now()), rounds, outRte, looping, Now())
    {
      hide GoodCursor, NonEmpty, Wrote, GoodMsg, AllButOneAcked, Settled, Flat, GoodRound;
      ParkedWrite();
      var m := current.value;
      var was := msgs[m];
      var dontblock := nonblocking || was.kind.dontblock;
      var d, finished, err;
      d, finished, err, looping := WriteMore(was.kind.w, dontblock, rounds, outRte);
      var now := was.(kind := Write(d, dontblock));
      WriteIs(was, now, dontblock, rounds, outRte, d, Outcome(finished, err, looping));
      GoOn(now, finished, err);
    }

    // The parked request is brought up to date, and acknowledged if it is finished.
    method GoOn(now: Msg, finished: bool, err: Err)
      requires AllButOneAcked(msgs, current) && current.Some? && current.value < |msgs|
      requires GoodMsg(now) && now.acks == 0 && (finished ==> GoodMsg(now.(err := err, acks := 1)))
      modifies `msgs, `current, `state
      ensures AllButOneAcked(msgs, current) && Settled(old(msgs), msgs)
      ensures msgs == old(msgs)[old(current).value := if finished then now.(err := err, acks := 1) else now]
      ensures if finished then current == None && state == NETCONN_NONE
              else current == old(current) && state == old(state)
    {
      hide GoodMsg, AllButOneAcked, Settled;
      var m := current.value;
      Rewritten(msgs, m, now);
      if finished {
        Rewritten(msgs, m, now.(err := err, acks := 1));
      }
      msgs := msgs[m := now];
      if finished {
        Complete(err);
        assert msgs == old(msgs)[m := now.(err := err, acks := 1)];
      }
    }

    lemma ParkedWrite()
      requires AllButOneAcked(msgs, current) && current.Some? && current.value < |msgs|
      requires state == NETCONN_WRITE && Parked()
      ensures var m := msgs[current.value];
        m.acks == 0 && m.kind.Write? && GoodCursor(m.kind.w) && m.kind.w.offset < m.kind.w.len
    {
    }

    // A write is parked, and goes as far as TCP allows.
    method BeginWrite(w: Cursor, dontblock: bool, rounds: seq<Round>, outRte: bool) returns (looping: bool)
      requires Valid() && pcb && state == NETCONN_NONE && GoodCursor(w) && w.offset < w.len
      requires forall k :: 0 <= k < |rounds| ==> GoodRound(rounds[k])
      modifies this
      ensures Valid() && Settled(old(msgs), msgs) && |msgs| == |old(msgs)| + 1
      ensures msgs[|msgs| - 1].kind.Write? && msgs[|msgs| - 1].kind.w.vectors == w.vectors
      ensures WriteStep(ParkedIn(old(Now()), Write(w, dontblock), ERR_VAL, NETCONN_WRITE), rounds, outRte, looping,
                        Now())
    {
      NewWrite(w, dontblock);
      hide AllButOneAcked, Settled, GoodCursor, NonEmpty, WriteGoesOn;
      ghost var before := msgs;
      Park(Write(w, dontblock), ERR_VAL, NETCONN_WRITE);
      ghost var between := msgs;
      looping := WriteOn(rounds, outRte);
      SettledTwice(before, between, msgs);
      SameVectors(between[|before|], msgs[|before|], nonblocking, rounds, outRte, looping);
    }

    // lwip_netconn_do_write, for vectors that are not empty and whose lengths sum up to len
    method DoWrite(vectors: seq<seq<byte>>, dontblock: bool, rounds: seq<Round>, outRte: bool) returns (looping: bool)
      requires Valid() && NonEmpty(vectors) && forall k :: 0 <= k < |rounds| ==> GoodRound(rounds[k])
      modifies this
      ensures Valid() && Settled(old(msgs), msgs) && |msgs| == |old(msgs)| + 1
      ensures msgs[|msgs| - 1].kind.Write? && msgs[|msgs| - 1].kind.w.vectors == vectors
      ensures WriteBegins(old(Now()), vectors, dontblock, rounds, outRte, looping, Now())
      // refused: nothing was written
      ensures old(pendingErr) != ERR_OK || old(state) != NETCONN_NONE || !old(pcb) ==>
                && state == old(state) && current == old(current) && msgs[|msgs| - 1].kind.w.accepted == []
                && msgs[|msgs| - 1].acks == 1
                && msgs[|msgs| - 1].err == if old(pendingErr) != ERR_OK then old(pendingErr)
                                           else if old(state) != NETCONN_NONE then ERR_INPROGRESS else ERR_CONN
    {
      looping := false;
      hide AllButOneAcked, Settled, GoodCursor, WriteStep, NonEmpty;
      var w := Start(vectors);
      NewWrite(w, dontblock);
      var err := pendingErr;
      pendingErr := ERR_OK;
      if err != ERR_OK {
        Answer(Write(w, dontblock), err);
      } else if state != NETCONN_NONE {
        Answer(Write(w, dontblock), ERR_INPROGRESS);
      } else if pcb {
        looping := BeginWrite(w, dontblock, rounds, outRte);
      } else {
        Answer(Write(w, dontblock), ERR_CONN);
      }
    }

    // ---------------------------------------------------------------- callbacks of TCP

    // sent_tcp: the parked write or close goes on.
    method SentTcp(half: bool, result: Err, rounds: seq<Round>, outRte: bool) returns (looping: bool)
      requires Valid() && pcb && hooked && forall k :: 0 <= k < |rounds| ==> GoodRound(rounds[k])
      modifies this
      ensures Valid() && Settled(old(msgs), msgs)
      ensures SentStep(old(Now()), half, result, rounds, outRte, looping, Now())
    {
      looping := false;
      if state == NETCONN_WRITE {
        looping := WriteOn(rounds, outRte);
      } else if state == NETCONN_CLOSE {
        CloseInternal(half, result, false);
      }
    }

    // poll_tcp: the parked write or close goes on; a close uses up one of its polls.
    method PollTcp(half: bool, result: Err, rounds: seq<Round>, outRte: bool) returns (looping: bool)
      requires Valid() && pcb && hooked && forall k :: 0 <= k < |rounds| ==> GoodRound(rounds[k])
      modifies this
      ensures Valid() && Settled(old(msgs), msgs)
      ensures SentStep(Polled(old(Now())), half, result, rounds, outRte, looping, Now())
    {
      looping := false;
      Unchanged(msgs);
      hide AllButOneAcked, Settled, WriteStep, CloseGoesOn;
      if state == NETCONN_WRITE {
        looping := WriteOn(rounds, outRte);
      } else if state == NETCONN_CLOSE {
        ghost var before := msgs;
        UsePoll();
        ghost var between := msgs;
        CloseInternal(half, result, false);
        SettledTwice(before, between, msgs);
      }
    }

    // The waiting close uses up one of its polls.
    method UsePoll()
      requires Valid() && state == NETCONN_CLOSE
      modifies `msgs, `polls
      ensures AllButOneAcked(msgs, current) && Settled(old(msgs), msgs) && |msgs| == |old(msgs)|
      ensures msgs[current.value].kind.Close? && polls + msgs[current.value].kind.pollsLeft == POLLS
      ensures Now() == Polled(old(Now()))
    {
      var m := current.value;
      if msgs[m].kind.pollsLeft > 0 {
        msgs := msgs[m := msgs[m].(kind := msgs[m].kind.(pollsLeft := msgs[m].kind.pollsLeft - 1))];
      }
      polls := polls + 1;
    }

    // err_tcp.  A flag that a connect left behind makes it forget the parked request: nobody will ever
    // acknowledge that.
    method ErrTcp(err: Err)
      requires Consistent() && pcb && hooked && state != NETCONN_LISTEN && err != ERR_OK
      modifies this
      ensures Valid() <==> !(old(StaleFlag()) && old(current).Some?)
      ensures Settled(old(msgs), msgs) && |msgs| == |old(msgs)|
      ensures Now() == ErrNext(old(Now()), err) && !pcb && state == NETCONN_NONE && pendingErr == err
      ensures old(StaleFlag()) ==> msgs == old(msgs) && current == old(current)
      ensures !old(StaleFlag()) && old(current).Some? ==>
                msgs[old(current).value].err == if old(state) == NETCONN_CLOSE then ERR_OK else err
    {
      pcb, pendingErr := false, err;
      var oldState := state;
      state := NETCONN_NONE;
      if oldState == NETCONN_WRITE || oldState == NETCONN_CLOSE || oldState == NETCONN_CONNECT {
        var wasNonblockingConnect := inNonblockingConnect;
        inNonblockingConnect := false;
        if !wasNonblockingConnect {
          Complete(if oldState == NETCONN_CLOSE then ERR_OK else err);
        }
      }
    }
  }

  lemma Unchanged(msgs: seq<Msg>)
    ensures Settled(msgs, msgs)
  {
  }

  lemma SettledTwice(a: seq<Msg>, b: seq<Msg>, c: seq<Msg>)
    requires Settled(a, b) && Settled(b, c)
    ensures Settled(a, c)
  {
  }

  lemma SameVectors(was: Msg, now: Msg, nonblocking: bool, rounds: seq<Round>, outRte: bool, looping: bool)
    requires WriteGoesOn(was, now, nonblocking, rounds, outRte, looping)
    ensures now.kind.w.vectors == was.kind.w.vectors
  {
  }

  lemma NewWrite(w: Cursor, dontblock: bool)
    requires GoodCursor(w) && w.offset < w.len
    ensures GoodMsg(Msg(Write(w, dontblock), ERR_VAL, 0))
    ensures forall err :: err != ERR_OK ==> GoodMsg(Msg(Write(w, dontblock), err, 1))
  {
  }

  // A close that begins waits for memory, or is done.
  lemma BeginsMeans(a: Net, rd: bool, wr: bool, err: Err, half: bool, result: Err)
    ensures var b := CloseBegins(a, rd, wr, err, half, result);
      && |b.msgs| == |a.msgs| + 1 && b.inNonblockingConnect == a.inNonblockingConnect
      && (if result == ERR_MEM then b.state == NETCONN_CLOSE && b.current == Some(|a.msgs|) && b.polls == 0
          else b.state == NETCONN_NONE && b.current == None && b.msgs[|a.msgs|].err == result)
      && (b.pcb <==> a.pcb && !(result == ERR_OK && ((rd && wr) || half)))
  {
    var p := ParkedIn(a, Close(rd, wr, POLLS), err, NETCONN_CLOSE).(polls := 0);
    assert p.msgs[|a.msgs|] == Msg(Close(rd, wr, POLLS), err, 0);
  }

  // A close that is tried again goes on waiting exactly if memory is short and polls are left.  Otherwise its
  // request is acknowledged, with success if there is nothing more to wait for, and with success the pcb is gone
  // if both directions are closed.
  lemma GoesOnMeans(a: Net, half: bool, result: Err, listening: bool)
    requires WaitingClose(a) && a.pcb
    ensures var b, m := CloseGoesOn(a, half, result, listening), a.current.value;
      var k := a.msgs[m].kind;
      && |b.msgs| == |a.msgs| && b.pendingErr == a.pendingErr && b.polls == a.polls
      && (forall n :: 0 <= n < |a.msgs| && n != m ==> b.msgs[n] == a.msgs[n])
      && if result == ERR_MEM && 0 < k.pollsLeft then
           b.msgs[m] == a.msgs[m] && b.current == a.current && b.state == a.state && b.pcb && b.hooked
         else
           var both := (k.rd && k.wr) || half;
           && b.msgs[m] == Msg(k, if result == ERR_MEM && both then ERR_OK else result, 1)
           && b.current == None && b.state == NETCONN_NONE
           && (b.pcb <==> !(both && (result == ERR_OK || result == ERR_MEM)))
  {
  }

  // A poll takes one of the polls that a waiting close has left, and nothing else.
  lemma PolledMeans(a: Net)
    requires WaitingClose(a) && a.state == NETCONN_CLOSE
    ensures var b, m := Polled(a), a.current.value;
      && |b.msgs| == |a.msgs| && b == a.(msgs := b.msgs, polls := a.polls + 1)
      && (forall n :: 0 <= n < |a.msgs| && n != m ==> b.msgs[n] == a.msgs[n])
      && b.msgs[m].kind.Close? && b.msgs[m] == a.msgs[m].(kind := b.msgs[m].kind)
      && b.msgs[m].kind.rd == a.msgs[m].kind.rd && b.msgs[m].kind.wr == a.msgs[m].kind.wr
      && (0 < a.msgs[m].kind.pollsLeft ==> b.msgs[m].kind.pollsLeft + 1 == a.msgs[m].kind.pollsLeft)
  {
  }

  // What a connect comes to: it waits if the netconn blocks, or is under way, or is answered with the right error
  // and nothing changes but the callbacks.
  lemma ConnectMeans(a: Net, result: Err, looping: bool, b: Net)
    requires Stepped(a, ApiConnect(result), looping, b)
    ensures var k := |a.msgs|;
      && |b.msgs| == k + 1 && b.msgs[..k] == a.msgs && b.msgs[k].kind == Connect
      && b.pcb == a.pcb && b.pendingErr == a.pendingErr
      && if a.pcb && a.state == NETCONN_NONE && result == ERR_OK then
           && b.state == NETCONN_CONNECT && b.hooked && b.inNonblockingConnect == a.nonblocking
           && if a.nonblocking then b.current == a.current && b.msgs[k].acks == 1 && b.msgs[k].err == ERR_INPROGRESS
              else b.current == Some(k) && b.msgs[k].acks == 0
         else
           && b.state == a.state && b.current == a.current && b.inNonblockingConnect == a.inNonblockingConnect
           && b.msgs[k].acks == 1
           && b.msgs[k].err == if !a.pcb then ERR_CLSD
                               else if a.state == NETCONN_CONNECT then ERR_ALREADY
                               else if a.state != NETCONN_NONE then ERR_ISCONN else result
  {
  }

  // When TCP is connected, or gave up, a connect that waits is told, and the netconn is free again.
  lemma ConnectedMeans(a: Net, err: Err, looping: bool, b: Net)
    requires Stepped(a, TcpConnected(err), looping, b) && a.state == NETCONN_CONNECT
    requires a.current.Some? ==> a.current.value < |a.msgs|
    ensures
      && |b.msgs| == |a.msgs| && b.state == NETCONN_NONE && b.current == None
      && !b.inNonblockingConnect && b.pcb == a.pcb
      && (forall n :: 0 <= n < |a.msgs| ==>
            b.msgs[n] == if a.current == Some(n) then a.msgs[n].(err := err, acks := 1) else a.msgs[n])
  {
  }

  // What a listen is answered.
  lemma ListenMeans(a: Net, closed: bool, lpcb: bool, mbox: bool, looping: bool, b: Net)
    requires Stepped(a, ApiListen(closed, lpcb, mbox), looping, b)
    ensures var k := |a.msgs|;
      var idle := a.pcb && a.state == NETCONN_NONE;
      && |b.msgs| == k + 1 && b.msgs[..k] == a.msgs && b.current == a.current
      && b.msgs[k] == Msg(Other, if a.pcb && a.state == NETCONN_LISTEN then ERR_OK
                                 else if !idle then ERR_CONN
                                 else if !closed then ERR_VAL
                                 else if lpcb && mbox then ERR_OK else ERR_MEM, 1)
      && b.state == (if idle && closed && lpcb && mbox then NETCONN_LISTEN else a.state)
      && (b.pcb <==> a.pcb && !(idle && closed && lpcb && !mbox))
  {
  }

  // What a reset or an abort does: the pcb is gone, and a request that waits is told, a close that it succeeded;
  // unless a flag that a connect left behind makes it be forgotten.
  lemma ErrMeans(a: Net, err: Err, looping: bool, b: Net)
    requires Stepped(a, TcpErr(err), looping, b)
    requires a.pcb && a.hooked && a.state != NETCONN_LISTEN && err != ERR_OK
    requires a.current.Some? ==> a.current.value < |a.msgs| && a.state != NETCONN_NONE
    ensures
      && !b.pcb && b.pendingErr == err && b.state == NETCONN_NONE && |b.msgs| == |a.msgs|
      && (forall n :: 0 <= n < |a.msgs| ==>
            b.msgs[n] == if a.current == Some(n) && !a.inNonblockingConnect then
                           a.msgs[n].(err := if a.state == NETCONN_CLOSE then ERR_OK else err, acks := 1)
                         else a.msgs[n])
      && b.current == if a.inNonblockingConnect then a.current else None
  {
  }

  lemma WriteAdds(a: Net, vectors: seq<seq<byte>>, dontblock: bool, rounds: seq<Round>, outRte: bool, looping: bool,
                  b: Net)
    requires WriteBegins(a, vectors, dontblock, rounds, outRte, looping, b)
    ensures |b.msgs| == |a.msgs| + 1
  {
    hide WriteGoesOn;
  }

  // A write goes on: it writes something if there is room, and if there is room enough it writes all and is
  // acknowledged.
  ghost predicate Writes(was: Cursor, rounds: seq<Round>, outRte: bool, looping: bool, now: Msg) {
    && now.kind.Write? && now.kind.w.vectors == was.vectors && was.accepted <= now.kind.w.accepted
    && (rounds != [] && 0 < rounds[0].sndbuf && rounds[0].result == ERR_OK ==> was.offset < now.kind.w.offset)
    && (AlwaysRoom(rounds, Enough(was)) && AllOk(rounds) && !looping && was.offset < was.len ==>
          now.kind.w.offset == now.kind.w.len && 0 < now.acks && now.err == if outRte then ERR_RTE else ERR_OK)
  }

  lemma StepWrites(a: Net, rounds: seq<Round>, outRte: bool, looping: bool, b: Net)
    requires WriteStep(a, rounds, outRte, looping, b)
    ensures var m := a.current.value;
      && a.msgs[m].kind.Write? && Writes(a.msgs[m].kind.w, rounds, outRte, looping, b.msgs[m])
      && (forall n :: 0 <= n < |a.msgs| && n != m ==> b.msgs[n] == a.msgs[n])
      && if b.msgs[m].acks == 0 then b == a.(msgs := b.msgs)
         else b == a.(msgs := b.msgs, state := NETCONN_NONE, current := None)
  {
    hide GoodCursor, Ends, AlwaysRoom, AllOk, Full, Spins, Room;
    var m := a.current.value;
    var c, o := a.msgs[m].kind.w, Outcome(0 < b.msgs[m].acks, b.msgs[m].err, looping);
    if AlwaysRoom(rounds, Enough(c)) && AllOk(rounds) && !looping && c.offset < c.len {
      EndsWell(c, a.nonblocking || a.msgs[m].kind.dontblock, rounds, outRte, b.msgs[m].kind.w, o);
    }
  }

  // When TCP has sent data or polls, a parked write goes on.
  lemma WriteResumes(a: Net, step: Step, looping: bool, b: Net)
    requires Stepped(a, step, looping, b) && (step.TcpSent? || step.TcpPoll?) && a.state == NETCONN_WRITE
    requires a.pcb && a.hooked && forall k :: 0 <= k < |step.rounds| ==> GoodRound(step.rounds[k])
    ensures a.current.Some? && a.current.value < |a.msgs| == |b.msgs|
    ensures var m := a.current.value;
      && a.msgs[m].kind.Write? && Writes(a.msgs[m].kind.w, step.rounds, step.outRte, looping, b.msgs[m])
      && (forall n :: 0 <= n < |a.msgs| && n != m ==> b.msgs[n] == a.msgs[n])
      && if b.msgs[m].acks == 0 then b == a.(msgs := b.msgs)
         else b == a.(msgs := b.msgs, state := NETCONN_NONE, current := None)
  {
    hide Writes, WriteGoesOn;
    StepWrites(a, step.rounds, step.outRte, looping, b);
  }

  // A new write begins at once, with all of its vectors to be written.
  lemma WriteStarts(a: Net, vectors: seq<seq<byte>>, dontblock: bool, rounds: seq<Round>, outRte: bool, looping: bool,
                    b: Net)
    requires Stepped(a, ApiWrite(vectors, dontblock, rounds, outRte), looping, b)
    requires NonEmpty(vectors) && forall k :: 0 <= k < |rounds| ==> GoodRound(rounds[k])
    requires a.pendingErr == ERR_OK && a.state == NETCONN_NONE && a.pcb
    ensures var m := |a.msgs|;
      && |b.msgs| == m + 1 && b.msgs[..m] == a.msgs
      && Writes(Cursor(vectors, 0, |vectors|, 0, |Flat(vectors)|, 0, []), rounds, outRte, looping, b.msgs[m])
      && (if b.msgs[m].acks == 0 then b.state == NETCONN_WRITE && b.current == Some(m)
          else b.state == NETCONN_NONE && b.current == None)
  {
    hide Writes, WriteGoesOn, NonEmpty, Flat;
    var p := ParkedIn(a, Write(Beginning(vectors), dontblock), ERR_VAL, NETCONN_WRITE);
    StepWrites(p, rounds, outRte, looping, b);
    assert forall n :: 0 <= n < |a.msgs| ==> b.msgs[n] == p.msgs[n] == a.msgs[n];
  }

  lemma EndsWell(c: Cursor, dontblock: bool, rounds: seq<Round>, outRte: bool, d: Cursor, o: Outcome)
    requires GoodCursor(c) && c.offset < c.len && Wrote(c, dontblock, rounds, outRte, d, o)
    requires AlwaysRoom(rounds, Enough(c)) && AllOk(rounds) && !o.looping
    ensures o.finished && d.offset == d.len && o.err == if outRte then ERR_RTE else ERR_OK
  {
    hide GoodCursor, Full, Spins, Room;
    var n: nat :| n <= |rounds| && Ends(dontblock, rounds, outRte, n, d, o);
  }

  // A close that waits is tried again, and a poll is one of those it has left.
  lemma CloseResumes(a: Net, step: Step, looping: bool, b: Net)
    requires Stepped(a, step, looping, b) && (step.TcpSent? || step.TcpPoll?) && a.state == NETCONN_CLOSE
    requires a.pcb && a.hooked && forall k :: 0 <= k < |step.rounds| ==> GoodRound(step.rounds[k])
    requires WaitingClose(a) && 0 < a.msgs[a.current.value].kind.pollsLeft
    ensures |b.msgs| == |a.msgs| && !looping && b.polls == a.polls + if step.TcpPoll? then 1 else 0
    ensures var m := a.current.value;
      var k := a.msgs[m].kind;
      var left, both := k.pollsLeft - (if step.TcpPoll? then 1 else 0), (k.rd && k.wr) || step.half;
      && (forall n :: 0 <= n < |a.msgs| && n != m ==> b.msgs[n] == a.msgs[n])
      && b.msgs[m].kind == k.(pollsLeft := left)
      && if step.result == ERR_MEM && 0 < left then
           b.msgs[m].acks == a.msgs[m].acks && b.current == a.current && b.state == NETCONN_CLOSE && b.pcb && b.hooked
         else
           && b.msgs[m].acks == 1 && b.current == None && b.state == NETCONN_NONE
           && b.msgs[m].err == (if step.result == ERR_MEM && both then ERR_OK else step.result)
           && (b.pcb <==> !(both && (step.result == ERR_OK || step.result == ERR_MEM)))
  {
    hide CloseGoesOn, Polled;
    PolledMeans(a);
    GoesOnMeans(if step.TcpPoll? then Polled(a) else a, step.half, step.result, false);
  }

  // Every request of an application gets an api_msg of its own, whatever the netconn is doing, but for a close
  // while another one is running.
  lemma EveryRequest(a: Net, step: Step, looping: bool, b: Net)
    requires Stepped(a, step, looping, b)
    requires match step
             case ApiConnect(_) => true
             case ApiListen(_, _, _) => true
             case ApiWrite(vectors, _, rounds, _) =>
               NonEmpty(vectors) && forall k :: 0 <= k < |rounds| ==> GoodRound(rounds[k])
             case ApiClose(_, _, _, result) =>
               !(a.pcb && a.state == NETCONN_CLOSE) && (a.state == NETCONN_LISTEN ==> result == ERR_OK)
             case ApiDelete(result) => a.state == NETCONN_LISTEN || a.state == NETCONN_CONNECT ==> result == ERR_OK
             case _ => false
    ensures |b.msgs| == |a.msgs| + 1
    ensures match step
            case ApiClose(rd, wr, half, result) => b == CloseNext(a, rd, wr, half, result)
            case ApiDelete(result) => b == DeleteNext(a, result)
            case _ => true
  {
    hide NonEmpty, ConnectNext, ListenNext, CloseNext, DeleteNext, WriteBegins;
    match step {
      case ApiWrite(vectors, dontblock, rounds, outRte) => WriteAdds(a, vectors, dontblock, rounds, outRte, looping, b);
      case ApiConnect(result) => ConnectMeans(a, result, looping, b);
      case ApiListen(closed, lpcb, mbox) => ListenMeans(a, closed, lpcb, mbox, looping, b);
      case ApiClose(rd, wr, half, result) => CloseMeans(a, rd, wr, half, result);
      case ApiDelete(result) => DeleteMeans(a, result);
      case _ =>
    }
  }

  // What a close comes to: it is refused, and nothing changes but the answer, or the netconn is closed, or
  // it waits for memory.
  lemma CloseMeans(a: Net, rd: bool, wr: bool, half: bool, result: Err)
    ensures var b := CloseNext(a, rd, wr, half, result);
      && |b.msgs| == |a.msgs| + 1
      && (!a.pcb || a.state == NETCONN_CONNECT || a.state == NETCONN_WRITE
          || (a.state == NETCONN_LISTEN && !(rd && wr)) ==>
            b == Answered(a, Close(rd, wr, POLLS),
                          if a.pcb && a.state == NETCONN_WRITE then ERR_INPROGRESS else ERR_CONN))
      && (a.pcb && (a.state == NETCONN_NONE || (a.state == NETCONN_LISTEN && rd && wr)) ==>
            && (result == ERR_MEM <==> b.state == NETCONN_CLOSE)
            && (b.state == NETCONN_CLOSE ==> b.current == Some(|b.msgs| - 1) && b.polls == 0)
            && (b.state != NETCONN_CLOSE ==> b.state == NETCONN_NONE && b.msgs[|b.msgs| - 1].err == result)
            && (b.pcb <==> !(result == ERR_OK && ((rd && wr) || half))))
  {
    BeginsMeans(a, rd, wr, ERR_VAL, half, result);
    hide CloseBegins;
  }

  // What a delete comes to, if no request is parked.
  lemma DeleteMeans(a: Net, result: Err)
    ensures var b := DeleteNext(a, result);
      && |b.msgs| == |a.msgs| + 1
      && (a.state in {NETCONN_NONE, NETCONN_LISTEN} || (a.state == NETCONN_CONNECT && a.inNonblockingConnect) ==>
            && (a.current.None? && (result == ERR_OK || !a.pcb) ==>
                  !b.pcb && b.msgs[|b.msgs| - 1].err == ERR_OK && b.current == None)
            && (a.pcb ==> b.state != NETCONN_CONNECT && (b.pcb <==> result != ERR_OK))
            && (result == ERR_MEM && a.pcb ==>
                  b.state == NETCONN_CLOSE && b.current == Some(|b.msgs| - 1) && b.polls == 0))
  {
    BeginsMeans(a, true, true, ERR_OK, false, result);
    hide CloseBegins;
  }

  // What the loop leaves is a good request, whether it is answered or not.
  lemma WriteIs(was: Msg, now: Msg, dontblock: bool, rounds: seq<Round>, outRte: bool, d: Cursor, o: Outcome)
    requires was.kind.Write? && GoodCursor(was.kind.w) && was.acks == 0 && now == was.(kind := Write(d, dontblock))
    requires Wrote(was.kind.w, dontblock, rounds, outRte, d, o)
    ensures GoodMsg(now) && (o.finished ==> GoodMsg(now.(err := o.err, acks := 1)))
    ensures !o.finished ==> d.offset < d.len && Wrote(was.kind.w, dontblock, rounds, outRte, d, o.(err := was.err))
  {
    CursorMeans(d);
    if !o.finished {
      SameEnd(was.kind.w, dontblock, rounds, outRte, d, o, was.err);
    }
  }

  // The error of a write that is not finished is of no account.
  lemma SameEnd(w: Cursor, dontblock: bool, rounds: seq<Round>, outRte: bool, d: Cursor, o: Outcome, err: Err)
    requires GoodCursor(w) && Wrote(w, dontblock, rounds, outRte, d, o) && !o.finished
    ensures Wrote(w, dontblock, rounds, outRte, d, o.(err := err))
  {
    var n: nat :| n <= |rounds| && Ends(dontblock, rounds, outRte, n, d, o);
    assert Ends(dontblock, rounds, outRte, n, d, o.(err := err));
  }

  // The request that is not acknowledged may change.
  lemma Rewritten(msgs: seq<Msg>, m: nat, now: Msg)
    requires AllButOneAcked(msgs, Some(m)) && m < |msgs| && GoodMsg(now) && now.acks <= 1
    ensures AllButOneAcked(msgs[m := now], if now.acks == 0 then Some(m) else None)
    ensures Settled(msgs, msgs[m := now])
  {
  }

  // If it is a write that may block and it ended with ERR_OK, all its bytes were accepted, in order.
  ghost predicate WroteAll(m: Msg) {
    m.kind.Write? && !m.kind.dontblock && 0 < m.acks && m.err == ERR_OK ==>
      m.kind.w.accepted == Flat(m.kind.w.vectors)
  }

  // What becomes of a write: the bytes accepted for it are a prefix of its vectors, and if it may
  // block and ends with ERR_OK they are all of them.
  lemma WriteOutcome(m: Msg)
    requires GoodMsg(m) && m.kind.Write?
    ensures m.kind.w.accepted <= Flat(m.kind.w.vectors) && m.kind.w.offset == |m.kind.w.accepted|
    ensures WroteAll(m)
    ensures 0 < m.acks && m.err == ERR_OK && m.kind.dontblock ==> m.kind.w.accepted != []
  {
    CursorMeans(m.kind.w);
  }

  predicate Enabled(c: Conn, step: Step)
    reads c`state, c`pcb, c`hooked
  {
    Possible(c.state, c.pcb, c.hooked, step)
  }

  // One step, if it can happen.
  method Perform(c: Conn, step: Step) returns (looping: bool)
    requires c.Valid()
    modifies c
    ensures c.Valid() && Settled(old(c.msgs), c.msgs) && Stepped(old(c.Now()), step, looping, c.Now())
  {
    hide ConnectNext, ListenNext, WriteBegins, CloseNext, DeleteNext, ConnectedNext, SentStep, Polled, ErrNext;
    looping := false;
    if !Enabled(c, step) {
      return;
    }
    match step {
      case ApiConnect(result) => c.DoConnect(result);
      case ApiListen(closed, lpcb, mbox) => c.DoListen(closed, lpcb, mbox);
      case ApiWrite(vectors, dontblock, rounds, outRte) => looping := c.DoWrite(vectors, dontblock, rounds, outRte);
      case ApiClose(rd, wr, half, result) => var asserted := c.DoClose(rd, wr, half, result);
      case ApiDelete(result) => c.DoDelconn(result);
      case TcpConnected(err) => c.DoConnected(err);
      case TcpSent(half, result, rounds, outRte) => looping := c.SentTcp(half, result, rounds, outRte);
      case TcpPoll(half, result, rounds, outRte) => looping := c.PollTcp(half, result, rounds, outRte);
      case TcpErr(err) => c.ErrTcp(err);
    }
  }

  // The states before and after each step, the last of which may be in its loop.
  ghost predicate IsRun(trace: seq<Net>, steps: seq<Step>, looping: bool) {
    && |trace| == |steps| + 1
    && forall i :: 0 <= i < |steps| ==> Stepped(trace[i], steps[i], looping && i == |steps| - 1, trace[i + 1])
  }

  lemma RunOn(trace: seq<Net>, steps: seq<Step>, i: nat, looping: bool, now: Net)
    requires i < |steps| && IsRun(trace, steps[..i], false) && Stepped(trace[i], steps[i], looping, now)
    ensures IsRun(trace + [now], steps[..i + 1], looping)
  {
    hide Stepped;
  }

  // All runs, from any valid state: the steps are taken, up to a write that does not leave its loop; every
  // request was acknowledged once or is the parked one, what was acknowledged never changes again, and a
  // running close has seen fewer than POLLS polls.
  method Run(c: Conn, steps: seq<Step>) returns (taken: nat, looping: bool, ghost trace: seq<Net>)
    requires c.Valid()
    modifies c
    ensures c.Valid() && Settled(old(c.msgs), c.msgs)
    ensures taken <= |steps| && (if looping then 0 < taken else taken == |steps|)
    ensures IsRun(trace, steps[..taken], looping)
    ensures trace[0] == old(c.Now()) && trace[taken] == c.Now()
    ensures forall m :: 0 <= m < |c.msgs| ==> c.msgs[m].acks == if c.current == Some(m) then 0 else 1
    ensures c.current.Some? ==> c.pcb && c.state in {NETCONN_WRITE, NETCONN_CLOSE, NETCONN_CONNECT}
    ensures c.state == NETCONN_CLOSE ==> c.polls < POLLS
    ensures forall m :: 0 <= m < |c.msgs| ==> WroteAll(c.msgs[m])
  {
    taken, looping, trace := 0, false, [c.Now()];
    while taken < |steps| && !looping
      invariant taken <= |steps| && (looping ==> 0 < taken) && c.Valid() && Settled(old(c.msgs), c.msgs)
      invariant IsRun(trace, steps[..taken], looping) && trace[0] == old(c.Now()) && trace[taken] == c.Now()
      decreases |steps| - taken
    {
      hide Conn.Valid, Stepped;
      looping := Perform(c, steps[taken]);
      RunOn(trace, steps, taken, looping, c.Now());
      taken, trace := taken + 1, trace + [c.Now()];
    }
    forall m | 0 <= m < |c.msgs| ensures WroteAll(c.msgs[m]) {
      if c.msgs[m].kind.Write? {
        WriteOutcome(c.msgs[m]);
      }
    }
  }

  // Two closes of one netconn, the first of which waits for memory: the second runs into the assertion
  // that nothing is parked.
  method CloseTwice() returns (c: Conn, asserted: bool)
    ensures asserted && c.state == NETCONN_CLOSE
  {
    c := new Conn(false);
    asserted := c.DoClose(true, true, false, ERR_MEM);
    asserted := c.DoClose(true, true, false, ERR_OK);
  }

  // A netconn is deleted while a nonblocking connect is under way, memory is short for closing the pcb,
  // and then the connection is reset: nobody will acknowledge the delete.
  method DeleteForgotten() returns (c: Conn, m: nat)
    ensures m < |c.msgs| && c.msgs[m].acks == 0 && !c.pcb && c.state == NETCONN_NONE
  {
    c := new Conn(true);
    c.DoConnect(ERR_OK);
    c.DoDelconn(ERR_MEM);
    m := |c.msgs| - 1;
    c.ErrTcp(ERR_RST);
  }
}
