// sockets.c and api_lib.c: reading from a TCP socket.
module StreamRecv {
  import opened Wrappers

  type Segment = s: seq<byte> | 0 < |s| <= 0xFFFF witness [0]

  const SSIZE_MAX: nat := 0x7FFF_FFFF

  datatype Err = ERR_CLSD | ERR_CONN | ERR_WOULDBLOCK | ERR_TIMEOUT | ERR_RST | ERR_ABRT

  // What the stack posts to the receive mailbox: a pbuf, the end of the stream, or an error message.
  datatype Item = Data(bytes: Segment) | Fin | Failed(err: Err)

  // What a call returns: the bytes it copied, 0 for the end of the stream, or -1 and an error.
  datatype Result = Got(bytes: seq<byte>) | Eof | Failure(err: Err)

  function Bytes(mbox: seq<Item>): seq<byte> {
    if mbox == [] then [] else (if mbox[0].Data? then mbox[0].bytes else []) + Bytes(mbox[1..])
  }

  // Nothing but messages that end the stream behind the first of them, and one Fin at most.
  ghost predicate InOrder(mbox: seq<Item>) {
    forall i, j :: 0 <= i < j < |mbox| && !mbox[i].Data? ==> mbox[j].Failed?
  }

  lemma {:induction false} BytesConcat(a: seq<Item>, b: seq<Item>)
    ensures Bytes(a + b) == Bytes(a) + Bytes(b)
  {
    if a == [] {
      assert a + b == b;
    } else {
      assert (a + b)[1..] == a[1..] + b;
      BytesConcat(a[1..], b);
    }
  }

  lemma {:induction false} NoBytes(mbox: seq<Item>)
    requires forall i :: 0 <= i < |mbox| ==> !mbox[i].Data?
    ensures Bytes(mbox) == []
  {
    if mbox != [] {
      NoBytes(mbox[1..]);
    }
  }

  lemma Associative(a: seq<byte>, b: seq<byte>, c: seq<byte>)
    ensures a + (b + c) == (a + b) + c
  {
  }

  // The messages that end the stream.
  function Marks(mbox: seq<Item>): seq<Item> {
    if mbox == [] then [] else (if mbox[0].Data? then [] else [mbox[0]]) + Marks(mbox[1..])
  }

  ghost predicate AllFailed(mbox: seq<Item>) {
    forall i :: 0 <= i < |mbox| ==> mbox[i].Failed?
  }

  ghost predicate HasFin(mbox: seq<Item>) {
    exists i :: 0 <= i < |mbox| && mbox[i].Fin?
  }

  // Taking the first message.
  lemma Pop(mbox: seq<Item>)
    requires mbox != [] && InOrder(mbox)
    ensures InOrder(mbox[1..])
    ensures Bytes(mbox) == (if mbox[0].Data? then mbox[0].bytes else []) + Bytes(mbox[1..])
    ensures Marks(mbox) == (if mbox[0].Data? then [] else [mbox[0]]) + Marks(mbox[1..])
    ensures HasFin(mbox) <==> mbox[0].Fin? || HasFin(mbox[1..])
    ensures !mbox[0].Data? ==> Bytes(mbox) == [] && AllFailed(mbox[1..])
  {
    assert forall i :: 0 < i < |mbox| ==> mbox[i] == mbox[1..][i - 1];
    if !mbox[0].Data? {
      NoBytes(mbox);
    }
  }

  lemma FinAtEnd(mbox: seq<Item>, item: Item)
    ensures HasFin(mbox + [item]) <==> HasFin(mbox) || item.Fin?
  {
    assert forall i :: 0 <= i < |mbox| ==> (mbox + [item])[i] == mbox[i];
    assert (mbox + [item])[|mbox|] == item;
  }

  lemma Divided(p: seq<byte>, n: nat, rest: seq<byte>, taken: seq<byte>)
    requires n <= |p|
    ensures taken + [] + (p + rest) == taken + p[..n] + [] + (p[n..] + rest)
    ensures n == |p| ==> taken + [] + (p + rest) == taken + p[..n] + [] + rest
    ensures n == 0 ==> p[n..] == p
  {
    assert p == p[..n] + p[n..];
  }

  // The message that a call took from the mailbox, if it took one.
  ghost function Newest(was: seq<Item>, now: seq<Item>): Option<Item> {
    if |was| < |now| then Some(now[|was|]) else None
  }

  // What a call that fetches from the mailbox returns, x being the message it took and pending the error
  // left by the last failure: the bytes of the message, or its error, or the end of the stream, which is
  // refused once the pcb is gone and put off if the caller cannot take it; and without a message, the
  // pending error, or that the connection is gone, or that it would have had to wait, or waited in vain.
  ghost predicate Explains(r: Result, x: Option<Item>, finPending: bool, pending: Option<Err>, pcb: bool,
                           noWait: bool, noFin: bool)
  {
    if finPending || (x.Some? && (x.value.Fin? || x.value == Failed(ERR_CLSD))) then
      r == if !finPending && noFin then Failure(ERR_WOULDBLOCK)
           else if pcb then Eof
           else Failure(if pending.Some? then pending.value else ERR_RST)
    else
      r == match x
           case Some(Data(bytes)) => Got(bytes)
           case Some(Failed(e)) => Failure(e)
           case _ => Failure(if pending.Some? then pending.value
                             else if !pcb then ERR_CONN
                             else if noWait then ERR_WOULDBLOCK else ERR_TIMEOUT)
  }

  // ---------------------------------------------------------------- what happens on the connection

  // It has ended: the peer sent its FIN, or it failed.
  predicate Over(items: seq<Item>) {
    items != [] && (Over(items[..|items| - 1]) || !items[|items| - 1].Data?)
  }

  predicate Broken(items: seq<Item>) {
    items != [] && (Broken(items[..|items| - 1]) || items[|items| - 1].Failed?)
  }

  // What reaches a mailbox that stays open: nothing but failures once the connection has ended.
  function Posted(items: seq<Item>): seq<Item> {
    if items == [] then []
    else
      var n := |items| - 1;
      Posted(items[..n]) + if items[n].Failed? || !Over(items[..n]) then [items[n]] else []
  }

  // The byte stream.
  function Accepted(items: seq<Item>): seq<byte> {
    Bytes(Posted(items))
  }

  // pending_err, which was err before.
  function LastErr(items: seq<Item>, err: Option<Err>): Option<Err> {
    if items == [] then err
    else
      var n := |items| - 1;
      if items[n].Failed? then Some(items[n].err) else LastErr(items[..n], err)
  }

  lemma OneMore(past: seq<Item>, item: Item)
    ensures Over(past + [item]) <==> Over(past) || !item.Data?
    ensures Broken(past + [item]) <==> Broken(past) || item.Failed?
    ensures Posted(past + [item]) == Posted(past) + if item.Failed? || !Over(past) then [item] else []
    ensures Accepted(past + [item]) == Accepted(past) + if item.Data? && !Over(past) then item.bytes else []
    ensures HasFin(Posted(past + [item])) <==> HasFin(Posted(past)) || (item.Fin? && !Over(past))
  {
    assert (past + [item])[..|past|] == past;
    hide HasFin;
    if item.Failed? || !Over(past) {
      BytesConcat(Posted(past), [item]);
      FinAtEnd(Posted(past), item);
    } else {
      assert Posted(past) + [] == Posted(past);
    }
  }

  lemma OneMoreErr(past: seq<Item>, item: Item, err: Option<Err>)
    ensures LastErr(past + [item], err) == if item.Failed? then Some(item.err) else LastErr(past, err)
    ensures LastErr([], err) == err
  {
    assert (past + [item])[..|past|] == past;
  }

  // The connection is over from the first thing on that is no data.
  ghost predicate OverAt(items: seq<Item>, n: nat) {
    && n <= |items| && (forall i :: 0 <= i < n ==> items[i].Data?)
    && (n < |items| ==> !items[n].Data?)
  }

  // The messages are what comes before that, and it, and the failures behind.
  lemma {:induction false} PostedIs(items: seq<Item>, n: nat)
    requires OverAt(items, n)
    ensures Over(items) <==> n < |items|
    ensures var k := Min(n + 1, |items|); k <= |Posted(items)| <= |items| && Posted(items)[..k] == items[..k]
    ensures forall i :: n < i < |Posted(items)| ==> Posted(items)[i].Failed?
    decreases |items|
  {
    if items != [] {
      var m := |items| - 1;
      PostedIs(items[..m], Min(n, m));
    }
  }

  // The stream is the bytes of what comes before that.
  lemma {:induction false} AcceptedIs(items: seq<Item>, n: nat, bytes: seq<seq<byte>>)
    requires OverAt(items, n) && |bytes| == n && forall i :: 0 <= i < n ==> bytes[i] == items[i].bytes
    ensures Accepted(items) == Flat(bytes)
    decreases |items|
  {
    hide Accepted, Posted, Over, Broken;
    if items == [] {
      NothingAccepted();
    } else {
      var m := |items| - 1;
      assert items == items[..m] + [items[m]];
      OneMore(items[..m], items[m]);
      PostedIs(items[..m], Min(n, m));
      AcceptedIs(items[..m], Min(n, m), bytes[..Min(n, m)]);
      assert n <= m ==> bytes[..n] == bytes;
    }
  }

  lemma NothingAccepted()
    ensures Accepted([]) == []
  {
  }

  // The error left is that of the last failure, or the one before if there was none.
  lemma {:induction false} LastErrIs(items: seq<Item>, err: Option<Err>, k: nat)
    requires k <= |items| && forall i :: k < i < |items| ==> !items[i].Failed?
    ensures k < |items| && items[k].Failed? ==> LastErr(items, err) == Some(items[k].err)
    ensures k == 0 && (items == [] || !items[0].Failed?) ==> LastErr(items, err) == err
    decreases |items|
  {
    if items != [] && !items[|items| - 1].Failed? {
      LastErrIs(items[..|items| - 1], err, Min(k, |items| - 1));
    }
  }

  // A failure is what breaks it.
  lemma {:induction false} BrokenIs(items: seq<Item>)
    ensures Broken(items) <==> exists i :: 0 <= i < |items| && items[i].Failed?
  {
    if items != [] {
      BrokenIs(items[..|items| - 1]);
    }
  }

  // What is left of the errors of two windows.
  lemma {:induction false} ErrBoth(a: seq<Item>, b: seq<Item>, err: Option<Err>)
    ensures LastErr(a + b, err) == LastErr(b, LastErr(a, err))
  {
    hide LastErr;
    OneMoreErr([], Fin, LastErr(a, err));
    if b == [] {
      assert a + b == a;
    } else {
      var n := |b| - 1;
      ErrBoth(a, b[..n], err);
      OneMoreErr(a + b[..n], b[n], err);
      OneMoreErr(b[..n], b[n], LastErr(a, err));
      assert a + b == (a + b[..n]) + [b[n]] && b == b[..n] + [b[n]];
    }
  }

  lemma ErrTwice(items: seq<Item>, a: nat, b: nat, c: nat, err: Option<Err>)
    requires a <= b <= c <= |items|
    ensures LastErr(items[a..c], err) == LastErr(items[b..c], LastErr(items[a..b], err))
    ensures LastErr(items[a..a], err) == err
  {
    hide LastErr;
    assert items[a..c] == items[a..b] + items[b..c] && items[a..a] == [];
    ErrBoth(items[a..b], items[b..c], err);
    OneMoreErr([], Fin, err);
  }

  // Nothing joins the stream once the connection has ended.
  lemma {:induction false} OverStays(items: seq<Item>, n: nat)
    requires n <= |items| && Over(items[..n])
    ensures Over(items) && Accepted(items) == Accepted(items[..n])
    decreases |items|
  {
    hide Accepted;
    if n < |items| {
      var m := |items| - 1;
      assert items[..m][..n] == items[..n] && items == items[..m] + [items[m]];
      OverStays(items[..m], n);
      OneMore(items[..m], items[m]);
    } else {
      assert items[..n] == items;
    }
  }

  // How much of what is going to happen has happened after w windows, if due(v) says how much of it falls
  // in the v-th window.
  function DueBy(due: nat -> nat, total: nat, w: nat): (n: nat)
    ensures n <= total
  {
    if w == 0 then 0 else Min(total, DueBy(due, total, w - 1) + due(w - 1))
  }

  // What a reader can see of a socket.
  datatype View = View(rest: seq<byte>, marks: seq<Item>, finPending: bool, pendingErr: Option<Err>, waitable: bool)

  // Peeking has no effect: the socket is dead, or there are bytes to look at, or there is nothing at all.
  predicate Harmless(v: View) {
    !v.waitable || v.rest != [] || (!v.finPending && v.marks == [] && v.pendingErr.None?)
  }

  class TcpSocket {
    const arrivals: seq<Item>         // what is going to happen on the connection,
    const due: nat -> nat             //   and how much of it in each window
    var window: nat                   // the windows passed
    var lastdata: Option<Segment>     // sock->lastdata
    var mbox: seq<Item>               // conn->recvmbox
    var waitable: bool                // recvmbox is valid
    var finPending: bool              // NETCONN_FIN_RX_PENDING
    var mboxClosed: bool              // NETCONN_FLAG_MBOXCLOSED
    var pendingErr: Option<Err>       // conn->pending_err
    var pcb: bool                     // conn->pcb.tcp is not NULL
    var nonblocking: bool             // netconn_is_nonblocking
    var credit: nat                   // what netconn_tcp_recvd gave back to the receive window
    var ended: bool                   // the peer sent its FIN, or the connection failed
    ghost var stream: seq<byte>       // the bytes that arrived
    ghost var drawn: seq<Item>        // the messages taken from the mailbox
    ghost var taken: seq<byte>        // the bytes returned by calls that do not peek
    ghost var waits: nat              // how often a call waited for a message
    ghost var finArrived: bool        // a FIN was posted to the mailbox
    ghost var fins: nat               // the messages of the end of the stream taken from it,
    ghost var reported: nat           //   of which so many were reported as the end of the stream,
    ghost var refused: nat            //   and so many as an error, the pcb being gone

    function Rest(): seq<byte>
      reads `lastdata, `mbox
    {
      if lastdata.Some? then lastdata.value + Bytes(mbox) else Bytes(mbox)
    }

    // What a reader can see.
    function Visible(): View
      reads `lastdata, `mbox, `finPending, `pendingErr, `waitable
    {
      View(Rest(), Marks(mbox), finPending, pendingErr, waitable)
    }

    // hand holds the bytes that were fetched and are not stored yet.
    ghost predicate InStep(hand: seq<byte>)
      reads `lastdata, `mbox, `waitable, `finPending, `mboxClosed, `pendingErr, `pcb, `stream, `ended, `taken
    {
      && taken + hand + Rest() == stream
      && InOrder(mbox)
      && (forall i :: 0 <= i < |mbox| && !mbox[i].Data? ==> ended)
      && (finPending ==> ended && Rest() == [] && lastdata.None? && AllFailed(mbox))
      && (!waitable ==> ended && lastdata.None? && mbox == [] && !finPending)
      && (!pcb || mboxClosed || pendingErr.Some? ==> ended)
    }

    // A FIN that arrived is in the mailbox or was taken from it; what was taken was reported, or refused
    // as the pcb was gone, or is pending, or is in hand.
    ghost predicate FinsKept(hand: nat)
      reads `mbox, `finPending, `pcb, `finArrived, `fins, `reported, `refused
    {
      && (finArrived ==> 0 < fins || HasFin(mbox))
      && fins == reported + refused + hand + (if finPending then 1 else 0)
      && (0 < refused ==> !pcb)
    }

    function Passed(): (n: nat)
      ensures n <= |arrivals|
      reads `window
    {
      DueBy(due, |arrivals|, window)
    }

    // pending_err, which was err after so much had happened, if nobody took it since.
    ghost function ErrSince(passed: nat, err: Option<Err>): Option<Err>
      reads `window
    {
      if passed <= Passed() then LastErr(arrivals[passed..Passed()], err) else err
    }

    // What has happened on the connection.
    function Arrived(): seq<Item>
      reads `window
    {
      arrivals[..Passed()]
    }

    // The stream and its end are those of what happened, which is past; and so is the mailbox, with what
    // was taken from it.
    ghost predicate Happened(past: seq<Item>)
      reads `stream, `ended, `pcb, `mboxClosed, `finArrived, `waitable, `mbox, `drawn
    {
      Heard(past) && MailKept(past)
    }

    ghost predicate Heard(past: seq<Item>)
      reads `stream, `ended, `pcb, `mboxClosed, `finArrived
    {
      && stream == Accepted(past) && ended == Over(past) && finArrived == HasFin(Posted(past))
      && pcb == !Broken(past) && mboxClosed == !pcb
    }

    ghost predicate MailKept(past: seq<Item>)
      reads `waitable, `mbox, `drawn
    {
      waitable ==> drawn + mbox == Posted(past)
    }

    // What holds within a call: hand are the bytes, and fin the FINs, that were taken from the mailbox
    // and are not dealt with yet.
    ghost predicate Inv(hand: seq<byte>, fin: nat)
      reads `lastdata, `mbox, `waitable, `finPending, `mboxClosed, `pendingErr, `pcb, `stream, `ended, `taken
      reads `finArrived, `fins, `reported, `refused, `window, `drawn
    {
      InStep(hand) && FinsKept(fin) && Happened(Arrived())
    }

    // What holds between calls.
    ghost predicate Valid()
      reads this
    {
      Inv([], 0) && credit == |taken|
    }

    // What the invariant says of a socket between calls.
    lemma SoFar()
      requires Valid()
      ensures stream == Accepted(Arrived()) && taken <= stream && credit == |taken|
      ensures Rest() == [] ==> taken == stream
      ensures !waitable ==> Over(Arrived()) && Rest() == [] && mbox == []
      ensures HasFin(Posted(Arrived())) ==> 0 < fins || HasFin(mbox)
      ensures fins == reported + refused + if finPending then 1 else 0
      ensures 0 < refused ==> Broken(Arrived())
      ensures waitable ==> drawn + mbox == Posted(Arrived())
    {
      assert taken + [] + Rest() == taken + Rest();
      hide Over, Posted, Broken, Accepted, HasFin, InOrder, Arrived;
    }

    constructor (nonblocking: bool, arrivals: seq<Item>, due: nat -> nat)
      ensures Valid() && stream == taken == [] && drawn == [] && credit == 0 && pcb && !ended
      ensures this.arrivals == arrivals && this.due == due && window == 0
      ensures Visible() == View([], [], false, None, true) && mbox == []
      ensures fins == reported == refused == 0
    {
      this.arrivals, this.due, window := arrivals, due, 0;
      lastdata, mbox, waitable, finPending, drawn, waits := None, [], true, false, [], 0;
      mboxClosed, pendingErr, pcb, this.nonblocking := false, None, true, nonblocking;
      credit, stream, ended, taken := 0, [], false, [];
      finArrived, fins, reported, refused := false, 0, 0, 0;
    }

    // ---------------------------------------------------------------- the stack

    // In this section fin counts the FINs in hand while a call waits.

    // recv_tcp and err_tcp: the next thing that happens on the connection.  Nothing but a failure
    // follows the FIN of the peer.
    method Arrive(item: Item, ghost fin: nat, ghost past: seq<Item>)
      requires InStep([]) && FinsKept(fin) && Happened(past)
      modifies `mbox, `mboxClosed, `pendingErr, `pcb, `stream, `ended, `finArrived
      ensures InStep([]) && FinsKept(fin) && Happened(past + [item])
      ensures Rest() == old(Rest()) + (if item.Data? && !old(ended) then item.bytes else [])
      ensures old(ended) ==> ended && stream == old(stream)
      ensures mbox == old(mbox) + if waitable && (item.Failed? || !old(ended)) then [item] else []
      ensures pendingErr == if item.Failed? then Some(item.err) else old(pendingErr)
      ensures pcb == (old(pcb) && !item.Failed?)
    {
      hide InStep, FinsKept, Rest, Posted, Over, Broken, Accepted, HasFin;
      OneMore(past, item);
      InvEnded();
      if item.Failed? {
        Fail(item.err, fin);
      } else if waitable && !ended {
        Append(item, fin);
      }
    }

    lemma InvEnded()
      requires InStep([])
      ensures !waitable ==> ended
      ensures Rest() + [] == Rest() && mbox + [] == mbox
    {
    }

    // err_tcp
    method Fail(err: Err, ghost fin: nat)
      requires InStep([]) && FinsKept(fin)
      modifies `mbox, `mboxClosed, `pendingErr, `pcb, `ended
      ensures InStep([]) && FinsKept(fin) && Rest() == old(Rest()) && ended && pendingErr == Some(err)
      ensures !pcb && mboxClosed
      ensures mbox == old(mbox) + if waitable then [Failed(err)] else []
    {
      hide Bytes, HasFin;
      pcb, pendingErr, mboxClosed, ended := false, Some(err), true, true;
      if waitable {
        Post(Failed(err));
      }
    }

    // recv_tcp
    method Append(item: Item, ghost fin: nat)
      requires InStep([]) && FinsKept(fin) && waitable && !ended && !item.Failed?
      modifies `mbox, `stream, `ended, `finArrived
      ensures InStep([]) && FinsKept(fin) && Rest() == old(Rest()) + (if item.Data? then item.bytes else [])
      ensures mbox == old(mbox) + [item] && (ended <==> item.Fin?) && (finArrived <==> old(finArrived) || item.Fin?)
      ensures stream == old(stream) + if item.Data? then item.bytes else []
    {
      hide Bytes, HasFin;
      var bytes: seq<byte> := if item.Data? then item.bytes else [];
      if lastdata.Some? {
        Associative(lastdata.value, Bytes(mbox), bytes);
      }
      Associative(taken + [], Rest(), bytes);
      Post(item);
      ended := item.Fin?;
      finArrived := finArrived || item.Fin?;
      stream := stream + bytes;
    }

    // sys_mbox_trypost
    method Post(item: Item)
      requires InOrder(mbox) && (item.Failed? || forall i :: 0 <= i < |mbox| ==> mbox[i].Data?)
      modifies `mbox
      ensures InOrder(mbox) && mbox == old(mbox) + [item]
      ensures Bytes(mbox) == Bytes(old(mbox)) + if item.Data? then item.bytes else []
      ensures HasFin(mbox) <==> HasFin(old(mbox)) || item.Fin?
    {
      BytesConcat(mbox, [item]);
      FinAtEnd(mbox, item);
      mbox := mbox + [item];
    }

    // What happens while the application does something else, or waits.
    method Window(ghost fin: nat)
      requires Inv([], fin)
      modifies `mbox, `mboxClosed, `pendingErr, `pcb, `stream, `ended, `finArrived, `window
      ensures Inv([], fin) && old(Rest()) <= Rest()
      ensures window == old(window) + 1 && Passed() == Min(|arrivals|, old(Passed()) + due(old(window)))
      ensures old(Passed()) <= Passed()
      ensures old(ended) ==> ended && Rest() == old(Rest())
      ensures old(mbox) <= mbox && (!waitable ==> mbox == old(mbox))
      ensures pendingErr == ErrSince(old(Passed()), old(pendingErr))
      ensures waitable && mbox == old(mbox) ==> pcb == old(pcb) && pendingErr == old(pendingErr)
      ensures Passed() == old(Passed()) ==> mbox == old(mbox) && pendingErr == old(pendingErr)
    {
      hide InStep, FinsKept, Rest, InOrder, Happened, LastErr;
      var from := DueBy(due, |arrivals|, window);
      var until := Min(|arrivals|, from + due(window));
      Happen(from, until, fin);
      window := window + 1;
    }

    // The arrivals from one position to another.
    method Happen(from: nat, until: nat, ghost fin: nat)
      requires from <= until <= |arrivals| && InStep([]) && FinsKept(fin) && Happened(arrivals[..from])
      modifies `mbox, `mboxClosed, `pendingErr, `pcb, `stream, `ended, `finArrived
      ensures InStep([]) && FinsKept(fin) && Happened(arrivals[..until]) && old(Rest()) <= Rest()
      ensures old(ended) ==> ended && Rest() == old(Rest())
      ensures old(mbox) <= mbox && (!waitable ==> mbox == old(mbox))
      ensures pendingErr == LastErr(arrivals[from..until], old(pendingErr))
      ensures waitable && mbox == old(mbox) ==> pcb == old(pcb) && pendingErr == old(pendingErr)
      ensures until == from ==> mbox == old(mbox) && pendingErr == old(pendingErr)
    {
      hide InStep, FinsKept, Rest, InOrder, Happened, Posted, Over, Broken, Accepted, HasFin, LastErr;
      OneMoreErr([], Fin, pendingErr);
      assert arrivals[from..from] == [];
      for i := from to until
        invariant InStep([]) && FinsKept(fin) && Happened(arrivals[..i]) && old(Rest()) <= Rest()
        invariant old(ended) ==> ended && Rest() == old(Rest())
        invariant old(mbox) <= mbox && (!waitable ==> mbox == old(mbox))
        invariant pendingErr == LastErr(arrivals[from..i], old(pendingErr))
        invariant waitable && mbox == old(mbox) ==> pcb == old(pcb) && pendingErr == old(pendingErr)
        invariant i == from ==> mbox == old(mbox)
      {
        OneMoreErr(arrivals[from..i], arrivals[i], old(pendingErr));
        assert arrivals[from..i + 1] == arrivals[from..i] + [arrivals[i]];
        assert arrivals[..i + 1] == arrivals[..i] + [arrivals[i]];
        Arrive(arrivals[i], fin, arrivals[..i]);
      }
    }

    // ---------------------------------------------------------------- netconn_recv_data

    // netconn_err
    method NetconnErr() returns (err: Option<Err>)
      requires InStep([])
      modifies `pendingErr
      ensures InStep([]) && err == old(pendingErr) && pendingErr == None
    {
      err, pendingErr := pendingErr, None;
    }

    // The first message of the mailbox.
    method Take() returns (r: Result)
      requires Inv([], 0) && mbox != [] && !finPending && lastdata.None?
      modifies `mbox, `fins, `drawn
      ensures Inv(if r.Got? then r.bytes else [], if r.Eof? then 1 else 0)
      ensures mbox == old(mbox)[1..] && drawn == old(drawn) + [old(mbox)[0]]
      ensures r == match old(mbox)[0]
                   case Data(bytes) => Got(bytes)
                   case Fin => Eof
                   case Failed(e) => if e == ERR_CLSD then Eof else Failure(e)
      ensures fins == old(fins) + if r.Eof? then 1 else 0
      ensures if r.Got? then r.bytes + Rest() == old(Rest()) else Rest() == [] == old(Rest())
      ensures r.Eof? ==> ended && AllFailed(mbox)
    {
      hide Bytes, HasFin, Heard, Posted, Passed, InOrder;
      Pop(mbox);
      Associative(taken, [], Bytes(mbox));
      Associative(taken, if mbox[0].Data? then mbox[0].bytes else [], Bytes(mbox[1..]));
      assert drawn + mbox == drawn + [mbox[0]] + mbox[1..];
      match mbox[0] {
        case Data(bytes) => r := Got(bytes);
        case Fin => r := Eof;
        case Failed(e) => r := if e == ERR_CLSD then Eof else Failure(e);
      }
      drawn, mbox := drawn + [mbox[0]], mbox[1..];
      fins := fins + if r.Eof? then 1 else 0;
    }

    // netconn_recv_data.  A call that may block waits for something to arrive, and returns ERR_TIMEOUT
    // if nothing does.
    method NetconnRecvData(dontBlock: bool) returns (r: Result)
      requires Inv([], 0) && waitable && !finPending && lastdata.None?
      modifies `mbox, `mboxClosed, `pendingErr, `pcb, `stream, `ended, `finArrived, `fins, `window, `drawn, `waits
      ensures Inv(if r.Got? then r.bytes else [], if r.Eof? then 1 else 0)
      ensures if r.Got? then 0 < |r.bytes| <= 0xFFFF && old(Rest()) <= r.bytes + Rest()
              else Rest() == [] == old(Rest())
      ensures r.Eof? ==> ended && AllFailed(mbox)
      ensures fins == old(fins) + if r.Eof? then 1 else 0
      // it waits exactly if it may, and nothing is there, nor will come
      ensures waits == old(waits) +
                if nonblocking || dontBlock || old(mboxClosed) || old(pendingErr).Some? || old(mbox) != [] then 0 else 1
      // whatever arrives while it waits
      ensures drawn == old(drawn) || (|drawn| == |old(drawn)| + 1 && drawn[..|old(drawn)|] == old(drawn))
      ensures old(mbox) != [] ==> drawn == old(drawn) + [old(mbox)[0]]
      ensures old(Passed()) <= Passed() && old(window) <= window
      ensures old(waits) < waits ==> old(window) < window
      ensures var x, pending := Newest(old(drawn), drawn), ErrSince(old(Passed()), old(pendingErr));
        && (r.Eof? <==> x.Some? && (x.value.Fin? || x.value == Failed(ERR_CLSD)))
        && (!r.Eof? ==> Explains(r, x, false, pending, pcb, nonblocking || dontBlock, false))
        && (x.None? ==> mbox == []) && pendingErr == if x.None? then None else pending
      ensures Passed() == old(Passed()) ==>
                if old(mbox) == [] then mbox == [] && r.Failure? && pendingErr == None
                else mbox == old(mbox)[1..] && pendingErr == old(pendingErr)
    {
      hide InStep, FinsKept, Happened, Rest, InOrder, HasFin, AllFailed, Passed, LastErr;
      Empty();
      Closed();
      ErrTwice(arrivals, Passed(), Passed(), Passed(), pendingErr);
      if nonblocking || dontBlock || mboxClosed || pendingErr.Some? {
        if mbox == [] {
          var err := NetconnErr();
          return Failure(if err.Some? then err.value else if mboxClosed then ERR_CONN else ERR_WOULDBLOCK);
        }
      } else {
        if mbox == [] {
          waits := waits + 1;
        }
        Window(0);
        if mbox == [] {
          Empty();
          return Failure(ERR_TIMEOUT);
        }
      }
      r := Take();
    }

    lemma Closed()
      requires Inv([], 0)
      ensures mboxClosed == !pcb
    {
    }

    lemma Empty()
      ensures mbox == [] && lastdata.None? ==> Rest() == []
    {
    }

    // ---------------------------------------------------------------- netconn_recv_data_tcp

    // Once a FIN was taken that the caller can handle: it is reported, or refused if the pcb is gone.
    method HandleFin() returns (r: Result)
      requires Inv([], 1) && waitable && lastdata.None? && !finPending && ended && Rest() == []
      modifies `mbox, `waitable, `pendingErr, `reported, `refused
      ensures Inv([], 0) && Rest() == [] && (mbox == old(mbox) || mbox == [])
      ensures if pcb then r == Eof && !waitable && reported == old(reported) + 1 && refused == old(refused)
              else r.Failure? && waitable && refused == old(refused) + 1 && reported == old(reported)
      ensures Explains(r, None, true, old(pendingErr), pcb, false, false)
    {
      if !pcb {
        var err := NetconnErr();
        refused := refused + 1;
        return Failure(if err.Some? then err.value else ERR_RST);
      }
      // netconn_close_shutdown drains and frees the mailbox
      mbox, waitable := [], false;
      reported := reported + 1;
      return Eof;
    }

    // Every FIN taken by a call is reported by it as the end of the stream, refused by it as the pcb is
    // gone, or left pending.
    twostate predicate FinDealtWith(r: Result)
      reads `fins, `reported, `refused, `finPending, `pcb
    {
      && reported == old(reported) + (if r.Eof? then 1 else 0)
      && old(fins) <= fins && old(refused) <= refused && (old(refused) < refused ==> r.Failure? && !pcb)
      && (old(fins) < fins ==> r.Eof? || (r.Failure? && !pcb) || finPending)
    }

    // A FIN that the caller cannot take is left pending.
    twostate predicate FinLeft()
      reads `fins, `refused, `finPending
    {
      refused == old(refused) && (old(fins) < fins ==> finPending)
    }

    // A pending FIN is handled, after a window.
    method HandlePending() returns (r: Result)
      requires Inv([], 0) && waitable && finPending
      modifies `mbox, `mboxClosed, `pendingErr, `pcb, `stream, `ended, `finPending, `waitable
      modifies `finArrived, `reported, `refused, `window
      ensures Inv([], 0) && Rest() == [] == old(Rest()) && !finPending && ended && lastdata.None?
      ensures FinDealtWith(r) && (if pcb then r == Eof && !waitable else r.Failure? && waitable)
      ensures old(Passed()) <= Passed() && old(window) < window
      ensures drawn == old(drawn)
      ensures Explains(r, None, true, ErrSince(old(Passed()), old(pendingErr)), pcb, false, false)
    {
      hide AllFailed, Happened, InOrder, Passed, LastErr;
      finPending := false;
      Window(1);
      r := HandleFin();
    }

    // NETCONN_FIN_RX_PENDING
    method HoldFin()
      requires Inv([], 1) && waitable && lastdata.None? && !finPending && ended && Rest() == [] && AllFailed(mbox)
      modifies `finPending
      ensures Inv([], 0) && finPending
    {
      finPending := true;
    }

    lemma Visibly()
      requires Inv([], 0)
      ensures !waitable || finPending ==> Rest() == [] && lastdata.None?
      ensures finPending ==> waitable && (mbox == [] || mbox[0].Failed?)
      ensures if mbox == [] then Bytes(mbox) == [] && Marks(mbox) == []
              else
                && Bytes(mbox) == (if mbox[0].Data? then mbox[0].bytes else []) + Bytes(mbox[1..])
                && Marks(mbox) == (if mbox[0].Data? then [] else [mbox[0]]) + Marks(mbox[1..])
    {
    }

    // The end of the stream was taken: it is put off, or handled, after a window.
    method EndReached(noFin: bool) returns (r: Result)
      requires Inv([], 1) && waitable && lastdata.None? && !finPending && ended && Rest() == [] && AllFailed(mbox)
      modifies `mbox, `mboxClosed, `pendingErr, `pcb, `stream, `ended, `finPending, `waitable
      modifies `finArrived, `reported, `refused, `window
      ensures Inv([], 0) && Rest() == [] && (finPending <==> noFin) && (waitable <==> !r.Eof?)
      ensures if noFin then r == Failure(ERR_WOULDBLOCK) else if pcb then r == Eof else r.Failure?
      ensures reported == old(reported) + (if r.Eof? then 1 else 0) && (r.Eof? ==> ended)
      ensures refused == old(refused) + if noFin || r.Eof? then 0 else 1
      ensures old(Passed()) <= Passed() && old(window) <= window
      ensures Passed() == old(Passed()) ==> mbox == old(mbox) || mbox == []
      ensures Explains(r, Some(Fin), false, ErrSince(old(Passed()), old(pendingErr)), pcb, false, noFin)
    {
      hide InOrder, InStep, FinsKept, Happened, HasFin, AllFailed, Bytes, Passed, LastErr;
      if noFin {
        HoldFin();
        return Failure(ERR_WOULDBLOCK);
      }
      Window(1);
      r := HandleFin();
    }

    // netconn_recv_data_tcp with the mailbox valid and no FIN pending
    method RecvMessage(dontBlock: bool, noFin: bool) returns (r: Result)
      requires Inv([], 0) && lastdata.None? && waitable && !finPending
      modifies `mbox, `mboxClosed, `pendingErr, `pcb, `stream, `ended, `finPending, `waitable
      modifies `finArrived, `fins, `reported, `refused, `window, `drawn, `waits
      ensures Inv(if r.Got? then r.bytes else [], 0)
      ensures r.Got? ==> 0 < |r.bytes| <= 0xFFFF && old(Rest()) <= r.bytes + Rest() && !finPending
      ensures !r.Got? ==> Rest() == [] == old(Rest())
      ensures (waitable <==> !r.Eof?) && (r.Eof? ==> ended && !noFin)
      ensures finPending ==> noFin && r == Failure(ERR_WOULDBLOCK)
      ensures drawn == old(drawn) || (|drawn| == |old(drawn)| + 1 && drawn[..|old(drawn)|] == old(drawn))
      ensures FinDealtWith(r) && (noFin ==> FinLeft())
      ensures old(Passed()) <= Passed() && old(window) < window
      ensures Explains(r, Newest(old(drawn), drawn), false, ErrSince(old(Passed()), old(pendingErr)),
                       pcb, nonblocking || dontBlock, noFin)
      ensures Passed() == old(Passed()) && r.Got? ==>
                r.bytes + Rest() == old(Rest()) && Marks(mbox) == old(Marks(mbox)) && pendingErr == old(pendingErr)
      ensures Passed() == old(Passed()) && !r.Got? ==> (Visible() == old(Visible()) <==> Harmless(old(Visible())))
      // it waits once at most, and only if it may, and nothing is there
      ensures old(waits) <= waits <= old(waits) + 1
      ensures nonblocking || dontBlock || old(mbox) != [] ==> waits == old(waits)
    {
      hide InOrder, InStep, FinsKept, Happened, HasFin, AllFailed, Bytes, Passed, LastErr;
      Visibly();
      ghost var p0, err := Passed(), pendingErr;
      Window(0);
      ghost var p1, err1 := Passed(), pendingErr;
      r := NetconnRecvData(dontBlock);
      ErrTwice(arrivals, p0, p1, Passed(), err);
      assert ErrSince(p0, err) == ErrSince(p1, err1);
      if r.Eof? {
        ghost var p2, err2 := Passed(), pendingErr;
        r := EndReached(noFin);
        ErrTwice(arrivals, p0, p2, Passed(), err);
        assert ErrSince(p0, err) == ErrSince(p2, err2);
      }
    }

    // netconn_recv_data_tcp
    method NetconnRecvDataTcp(dontBlock: bool, noFin: bool) returns (r: Result)
      requires Inv([], 0) && lastdata.None?
      modifies `mbox, `mboxClosed, `pendingErr, `pcb, `stream, `ended, `finPending, `waitable
      modifies `finArrived, `fins, `reported, `refused, `window, `drawn, `waits
      ensures Inv(if r.Got? then r.bytes else [], 0)
      ensures r.Got? ==> 0 < |r.bytes| <= 0xFFFF && old(Rest()) <= r.bytes + Rest() && !finPending && waitable
      ensures !r.Got? ==> Rest() == [] == old(Rest())
      ensures r.Eof? ==> ended && !waitable && old(waitable) && (noFin ==> old(finPending))
      ensures !old(waitable) ==> r == Failure(ERR_CONN)
      ensures !r.Eof? ==> waitable == old(waitable)
      ensures old(finPending) ==> !finPending && (r == Eof || (r.Failure? && !pcb))
      ensures finPending ==> noFin && r == Failure(ERR_WOULDBLOCK)
      ensures FinDealtWith(r) && (noFin && !old(finPending) ==> FinLeft())
      ensures old(Passed()) <= Passed() && old(window) <= window
      // what it returns
      ensures drawn == old(drawn) || (|drawn| == |old(drawn)| + 1 && drawn[..|old(drawn)|] == old(drawn))
      ensures old(waitable) ==>
                Explains(r, Newest(old(drawn), drawn), old(finPending),
                         ErrSince(old(Passed()), old(pendingErr)), pcb, nonblocking || dontBlock, noFin)
      ensures Passed() == old(Passed()) && r.Got? ==>
                r.bytes + Rest() == old(Rest()) && Marks(mbox) == old(Marks(mbox)) && pendingErr == old(pendingErr)
      ensures Passed() == old(Passed()) && !r.Got? ==> (Visible() == old(Visible()) <==> Harmless(old(Visible())))
      // it waits once at most, and only if it may, and nothing is there
      ensures old(waits) <= waits <= old(waits) + 1
      ensures nonblocking || dontBlock || old(mbox) != [] ==> waits == old(waits)
    {
      hide InOrder, InStep, FinsKept, Happened, HasFin, AllFailed, Bytes, Passed, LastErr;
      Visibly();
      if !waitable {
        return Failure(ERR_CONN);
      }
      if finPending {
        r := HandlePending();
      } else {
        r := RecvMessage(dontBlock, noFin);
      }
    }

    // ---------------------------------------------------------------- lwip_recv_tcp

    // The pbuf the loop works on: what is left from before, or the next one.
    method Fetch(dontBlock: bool, noFin: bool) returns (r: Result)
      requires Inv([], 0)
      modifies `lastdata, `mbox, `mboxClosed, `pendingErr, `pcb, `stream, `ended, `finPending, `waitable
      modifies `finArrived, `fins, `reported, `refused, `window, `drawn, `waits
      ensures Inv([], 0) && old(Rest()) <= Rest()
      ensures r.Got? ==> lastdata == Some(r.bytes) && r.bytes <= Rest() && !finPending && waitable && old(waitable)
      ensures !r.Got? ==> lastdata.None? && Rest() == [] == old(Rest())
      ensures r.Eof? ==> ended && !waitable && old(waitable) && (noFin ==> old(finPending))
      ensures !old(waitable) ==> r == Failure(ERR_CONN)
      ensures !r.Eof? ==> waitable == old(waitable)
      ensures old(finPending) ==> !finPending && (r == Eof || (r.Failure? && !pcb))
      ensures finPending ==> noFin && r == Failure(ERR_WOULDBLOCK)
      ensures FinDealtWith(r) && (noFin && !old(finPending) ==> FinLeft())
      ensures old(Passed()) <= Passed() && old(window) <= window
      ensures drawn == old(drawn) || (|drawn| == |old(drawn)| + 1 && drawn[..|old(drawn)|] == old(drawn))
      ensures old(waitable) && !r.Got? ==>
                Explains(r, Newest(old(drawn), drawn), old(finPending),
                         ErrSince(old(Passed()), old(pendingErr)), pcb, nonblocking || dontBlock, noFin)
      ensures Passed() == old(Passed()) ==> (Visible() == old(Visible()) <==> Harmless(old(Visible())))
      // it waits once at most, and only if it may, and nothing is there
      ensures old(waits) <= waits <= old(waits) + 1
      ensures nonblocking || dontBlock || old(mbox) != [] || old(lastdata).Some? ==> waits == old(waits)
    {
      hide InOrder, HasFin, AllFailed, Bytes, Marks, Happened, Passed, LastErr, Explains;
      if lastdata.Some? {
        return Got(lastdata.value);
      }
      r := NetconnRecvDataTcp(dontBlock, noFin);
      if r.Got? {
        lastdata := Some(r.bytes);
        assert taken + [] + (r.bytes + Bytes(mbox)) == taken + r.bytes + Bytes(mbox);
      }
    }

    // pbuf_free_header, or pbuf_free if the whole pbuf was copied
    method Consume(n: nat)
      requires Inv([], 0) && lastdata.Some? && n <= |lastdata.value|
      modifies `lastdata, `taken
      ensures Inv([], 0) && taken == old(taken) + old(lastdata.value)[..n]
      ensures n == |old(lastdata.value)| ==> lastdata.None?
      ensures n == 0 ==> lastdata == old(lastdata)
    {
      hide InOrder, HasFin, AllFailed, Bytes, FinsKept, Happened;
      var p := lastdata.value;
      Divided(p, n, Bytes(mbox), taken);
      taken := taken + p[..n];
      lastdata := if |p| - n > 0 then Some(p[n..]) else None;
    }

    // lwip_recv_tcp
    method LwipRecvTcp(len: nat, peek: bool, dontWait: bool) returns (r: Result)
      requires Valid()
      modifies this
      ensures Valid()
      // bytes leave in order, none twice and none lost; peeking takes none
      ensures r.Got? ==> |r.bytes| <= len && |r.bytes| <= SSIZE_MAX
      ensures !peek ==> taken == old(taken) + if r.Got? then r.bytes else []
      ensures peek ==> taken == old(taken) && old(Rest()) <= Rest() && (r.Got? ==> r.bytes <= Rest())
      // a short count means that nothing else has arrived
      ensures r.Got? && !peek && |r.bytes| < len && |r.bytes| < SSIZE_MAX ==> Rest() == []
      ensures !r.Got? ==> Rest() == [] == old(Rest())
      // the end of the stream is reported behind all bytes, by a call that returns none, and only once
      ensures r.Eof? ==> ended && Rest() == [] && old(waitable) && !waitable
      ensures !old(waitable) ==> r == Failure(ERR_CONN) && !waitable
      ensures !r.Eof? ==> waitable == old(waitable)
      // a FIN met behind bytes waits for the next call, and no FIN that was taken is forgotten
      ensures finPending ==> r.Got? && r.bytes != [] && !peek && Rest() == []
      ensures old(finPending) ==> r == Eof || (r.Failure? && !pcb)
      ensures FinDealtWith(r)
      // why it returns no bytes, whatever arrives meanwhile
      ensures old(waitable) && !r.Got? ==>
                Explains(r, Newest(old(drawn), drawn), old(finPending),
                         ErrSince(old(Passed()), old(pendingErr)), pcb, nonblocking || dontWait, false)
      // if nothing happens meanwhile, peeking has no effect exactly if there is nothing but bytes to find, or
      // the socket is dead
      ensures old(Passed()) <= Passed() && old(window) <= window
      ensures peek && Passed() == old(Passed()) ==> (Visible() == old(Visible()) <==> Harmless(old(Visible())))
      // it waits once at most, and only if it may, and nothing is there
      ensures old(waits) <= waits <= old(waits) + 1
      ensures nonblocking || dontWait || old(mbox) != [] || old(lastdata).Some? ==> waits == old(waits)
    {
      hide Inv, Rest, Harmless, Visible, Passed, Explains, LastErr;
      var max := if len <= SSIZE_MAX then len else SSIZE_MAX;
      var recvd, recvLeft := [], max;
      var dontBlock, noFin := dontWait, false;
      while true
        invariant Inv([], 0) && |recvd| + recvLeft == max && credit == |old(taken)|
        invariant taken == old(taken) + recvd
        invariant old(Passed()) <= Passed() && old(window) <= window
        invariant fins == old(fins) && reported == old(reported) && refused == old(refused)
        invariant if recvd == [] then !noFin && window == old(window) && Visible() == old(Visible())
                                      && Rest() == old(Rest()) && waitable == old(waitable)
                                      && finPending == old(finPending) && drawn == old(drawn)
                                      && Passed() == old(Passed()) && pendingErr == old(pendingErr)
                                      && dontBlock == dontWait && waits == old(waits)
                                      && mbox == old(mbox) && lastdata == old(lastdata)
                  else noFin && !peek && 0 < recvLeft && !finPending && old(waitable) && !old(finPending) && waitable
        invariant old(waits) <= waits <= old(waits) + 1 && (recvd != [] ==> dontBlock)
        invariant nonblocking || dontWait || old(mbox) != [] || old(lastdata).Some? ==> waits == old(waits)
        decreases recvLeft
      {
        var p := Fetch(dontBlock, noFin);
        if !p.Got? {
          if recvd != [] {
            break;
          }
          return p;
        }
        var copylen := if recvLeft > |p.bytes| then |p.bytes| else recvLeft;
        recvd := recvd + p.bytes[..copylen];
        recvLeft := recvLeft - copylen;
        if !peek {
          Consume(copylen);
        }
        dontBlock, noFin := true, true;
        if recvLeft == 0 || peek {
          break;
        }
      }
      if recvd != [] && !peek {
        credit := credit + |recvd|;
      }
      r := Got(recvd);
    }

    // A window, and then one call.
    method Turn(c: Call) returns (r: Result)
      requires Valid()
      modifies this
      ensures Valid() && old(window) < window
      ensures taken == old(taken) + if !c.peek && r.Got? then r.bytes else []
      ensures if r.Eof? then old(waitable) && !waitable else waitable == old(waitable)
      ensures reported == old(reported) + if r.Eof? then 1 else 0
      ensures Short(c, r) ==> Rest() == []
    {
      hide Inv, Rest, Visible, Passed, Harmless, LastErr;
      Window(0);
      r := LwipRecvTcp(c.len, c.peek, c.dontWait);
    }
  }

  // One call of lwip_recv_tcp.
  datatype Call = Call(len: nat, peek: bool, dontWait: bool)

  // It returned less than it was asked for.
  predicate Short(c: Call, r: Result) {
    r.Got? ==> !c.peek && |r.bytes| < c.len && |r.bytes| < SSIZE_MAX
  }

  // The bytes that the calls which do not peek returned, one after the other.
  function Returned(calls: seq<Call>, results: seq<Result>): seq<byte>
    requires |calls| == |results|
  {
    if calls == [] then []
    else
      var n := |calls| - 1;
      Returned(calls[..n], results[..n]) + if !calls[n].peek && results[n].Got? then results[n].bytes else []
  }

  function Ends(results: seq<Result>): nat {
    if results == [] then 0 else Ends(results[..|results| - 1]) + if results[|results| - 1].Eof? then 1 else 0
  }

  lemma NoneYet(calls: seq<Call>)
    ensures Returned(calls[..0], []) == [] && Ends([]) == 0
  {
  }

  lemma OneMoreCall(calls: seq<Call>, results: seq<Result>, r: Result)
    requires |results| < |calls|
    ensures var c, n := calls[|results|], |results|;
      Returned(calls[..n + 1], results + [r])
      == Returned(calls[..n], results) + if !c.peek && r.Got? then r.bytes else []
    ensures Ends(results + [r]) == Ends(results) + if r.Eof? then 1 else 0
  {
    assert calls[..|results| + 1][..|results|] == calls[..|results|] && (results + [r])[..|results|] == results;
  }

  lemma PastOf(socket: TcpSocket, arrivals: seq<Item>, due: nat -> nat) returns (past: seq<Item>)
    requires socket.arrivals == arrivals && socket.due == due
    ensures past == socket.Arrived() == arrivals[..DueBy(due, |arrivals|, socket.window)]
    ensures past == arrivals[..|past|]
  {
    past := socket.Arrived();
  }

  // Any number of calls on a connection on which arrivals happen, before and during them, so much in each
  // window as due says.  past is what happened in the windows passed, of which there is one before each
  // call at least.  The bytes returned by the calls that do not peek are a prefix of the stream, and all
  // of it if the last call returned less than it was asked for; their number is what was given back to the
  // receive window.  The end of the stream is reported at most once, and then nothing of the stream is
  // missing, now or later.  No FIN is lost: one that arrived is in the mailbox or was taken, and one that
  // was taken was reported, or was refused by a call that found the pcb gone, or is pending.
  method Session(nonblocking: bool, arrivals: seq<Item>, due: nat -> nat, calls: seq<Call>)
    returns (socket: TcpSocket, results: seq<Result>, ghost past: seq<Item>)
    ensures |results| == |calls| <= socket.window && socket.Valid()
    ensures past == arrivals[..DueBy(due, |arrivals|, socket.window)] && socket.stream == Accepted(past)
    ensures Returned(calls, results) <= Accepted(past)
    ensures calls != [] && Short(calls[|calls| - 1], results[|calls| - 1]) ==>
              Returned(calls, results) == Accepted(past)
    ensures socket.credit == |Returned(calls, results)|
    ensures Ends(results) <= 1 && (Ends(results) == 1 ==> Returned(calls, results) == Accepted(arrivals))
    ensures HasFin(Posted(past)) ==> 0 < socket.fins || HasFin(socket.mbox)
    ensures socket.fins == Ends(results) + socket.refused + if socket.finPending then 1 else 0
    ensures 0 < socket.refused ==> Broken(past)
  {
    socket := new TcpSocket(nonblocking, arrivals, due);
    assert socket.waitable;
    hide TcpSocket.Valid, TcpSocket.Rest, TcpSocket.Visible, TcpSocket.Arrived, TcpSocket.Passed, Short;
    hide Over, Posted, Broken, Accepted, HasFin, DueBy, Returned, Ends;
    results := Turns(socket, calls);
    past := PastOf(socket, arrivals, due);
    socket.SoFar();
    if Over(past) {
      OverStays(arrivals, |past|);
    }
  }

  // The calls, one after the other, on a socket from which nothing was taken yet.
  method Turns(socket: TcpSocket, calls: seq<Call>) returns (results: seq<Result>)
    requires socket.Valid() && socket.taken == [] && socket.waitable && socket.reported == 0
    modifies socket
    ensures |results| == |calls| <= socket.window - old(socket.window) && socket.Valid()
    ensures Returned(calls, results) == socket.taken
    ensures Ends(results) == (if socket.waitable then 0 else 1) == socket.reported
    ensures calls != [] && Short(calls[|calls| - 1], results[|calls| - 1]) ==> socket.Rest() == []
  {
    results := [];
    hide TcpSocket.Valid, TcpSocket.Rest, Short, Returned, Ends;
    NoneYet(calls);
    for i := 0 to |calls|
      invariant socket.Valid() && |results| == i <= socket.window - old(socket.window)
      invariant Returned(calls[..i], results) == socket.taken
      invariant Ends(results) == (if socket.waitable then 0 else 1) == socket.reported
      invariant 0 < i && Short(calls[i - 1], results[i - 1]) ==> socket.Rest() == []
    {
      var r := socket.Turn(calls[i]);
      OneMoreCall(calls, results, r);
      results := results + [r];
    }
    assert calls[..|calls|] == calls;
  }

  // A connection on which one thing is to happen, in the first window.
  method BeforeFirst(item: Item) returns (socket: TcpSocket)
    ensures fresh(socket) && socket.Valid() && socket.waitable && !socket.finPending && socket.lastdata.None?
    ensures socket.arrivals == [item] && socket.Passed() == 0 && socket.due(socket.window) == 1
    ensures socket.mbox == socket.drawn == [] && socket.pendingErr.None?
  {
    socket := new TcpSocket(false, [item], w => 1);
  }

  // After that window.
  method FirstWindow(item: Item) returns (socket: TcpSocket)
    ensures fresh(socket) && socket.Valid() && socket.waitable && !socket.finPending && socket.lastdata.None?
    ensures socket.mbox == [item] && socket.Passed() == |socket.arrivals|
    ensures socket.pendingErr == if item.Failed? then Some(item.err) else None
  {
    hide TcpSocket.InStep, TcpSocket.FinsKept, TcpSocket.Happened, TcpSocket.MailKept, TcpSocket.Heard;
    hide TcpSocket.Rest, TcpSocket.Passed, TcpSocket.Arrived, TcpSocket.Visible, Marks, Bytes, DueBy, InOrder;
    hide LastErr, Posted, Over, Accepted, Broken, HasFin;
    socket := BeforeFirst(item);
    OnlyOne(item);
    socket.Window(0);
    socket.SoFar();
    AllArrived(socket, item);
    assert [] + socket.mbox == socket.mbox;
  }

  lemma AllArrived(socket: TcpSocket, item: Item)
    requires socket.arrivals == [item] && socket.Passed() == 1
    ensures socket.Arrived() == [item] && socket.arrivals[0..1] == [item]
  {
  }

  lemma OnlyOne(item: Item)
    ensures Posted([item]) == [item] && LastErr([item], None) == if item.Failed? then Some(item.err) else None
  {
    OneMore([], item);
    OneMoreErr([], item, None);
    assert [] + [item] == [item];
  }

  // A peek that takes the end of the stream: it is reported, and the mailbox is gone.
  method PeekAtFin() returns (socket: TcpSocket, before: View)
    ensures before == View([], [Fin], false, None, true) && socket.Visible() != before
  {
    socket := FirstWindow(Fin);
    before := socket.Visible();
    hide TcpSocket.Inv, TcpSocket.Passed;
    var r := socket.LwipRecvTcp(1, true, true);
  }

  // A peek that takes an error: after a reset, a first call takes the message, and the peek pending_err.
  method PeekAtError() returns (socket: TcpSocket, before: View)
    ensures before == View([], [], false, Some(ERR_RST), true) && socket.Visible() != before
  {
    socket := FirstWindow(Failed(ERR_RST));
    hide TcpSocket.Inv, TcpSocket.Passed;
    var r := socket.NetconnRecvData(true);
    before := socket.Visible();
    r := socket.LwipRecvTcp(1, true, true);
  }
}
