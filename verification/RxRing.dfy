// eth_mac.c and ethernetif.c: the receive ring between the Ethernet interrupt and the main loop.
module RxRing {
  import opened Wrappers

  const RX_QUEUE_NUM: nat := 3
  const RX_BUF_SIZE: nat := 1064

  type Frame = f: seq<byte> | |f| <= 1064

  // What the hardware does while the main loop is between two statements: the DMA engine writes into
  // the slot it was given, or completes a frame there and raises the receive interrupt.
  datatype Event = Dma(bytes: Frame) | Received(frame: Frame)

  // ---------------------------------------------------------------- the FIFO the ring stands for

  // A FIFO of capacity RX_QUEUE_NUM - 1 that drops the arriving frame when it is full.
  function Arrive(queue: seq<Frame>, e: Event): seq<Frame> {
    if e.Received? && |queue| < RX_QUEUE_NUM - 1 then queue + [e.frame] else queue
  }

  function ArriveAll(queue: seq<Frame>, events: seq<Event>): seq<Frame> {
    if events == [] then queue else Arrive(ArriveAll(queue, events[..|events| - 1]), events[|events| - 1])
  }

  // sched(w) lists what happens in the w-th window between two statements of the main loop.
  function ArriveIn(queue: seq<Frame>, sched: nat -> seq<Event>, i: nat, j: nat): seq<Frame>
    decreases j
  {
    if i >= j then queue else ArriveAll(ArriveIn(queue, sched, i, j - 1), sched(j - 1))
  }

  lemma {:induction false} ArriveAllKeeps(queue: seq<Frame>, events: seq<Event>)
    ensures queue <= ArriveAll(queue, events)
    ensures |queue| < RX_QUEUE_NUM ==> |ArriveAll(queue, events)| < RX_QUEUE_NUM
  {
    if events != [] {
      ArriveAllKeeps(queue, events[..|events| - 1]);
    }
  }

  // The frames that the events complete.
  function Frames(events: seq<Event>): seq<Frame> {
    if events == [] then []
    else
      var n := |events| - 1;
      Frames(events[..n]) + match events[n] case Received(f) => [f] case Dma(_) => []
  }

  // The first of them are accepted, as many as there is room for, and no others.
  lemma {:induction false} ArriveAllExactly(queue: seq<Frame>, events: seq<Event>)
    requires |queue| < RX_QUEUE_NUM
    ensures var frames, room := Frames(events), RX_QUEUE_NUM - 1 - |queue|;
      ArriveAll(queue, events) == queue + frames[..Min(|frames|, room)]
  {
    if events != [] {
      var n := |events| - 1;
      ArriveAllExactly(queue, events[..n]);
      var before, frames, room := Frames(events[..n]), Frames(events), RX_QUEUE_NUM - 1 - |queue|;
      if |before| < room {
        assert before[..Min(|before|, room)] == before && frames[..Min(|frames|, room)] == frames;
      } else {
        assert frames[..room] == before[..room];
      }
    }
  }

  function FramesIn(sched: nat -> seq<Event>, i: nat, j: nat): seq<Frame>
    decreases j
  {
    if i >= j then [] else FramesIn(sched, i, j - 1) + Frames(sched(j - 1))
  }

  lemma {:induction false} ArriveInExactly(queue: seq<Frame>, sched: nat -> seq<Event>, i: nat, j: nat)
    requires |queue| < RX_QUEUE_NUM
    ensures var frames, room := FramesIn(sched, i, j), RX_QUEUE_NUM - 1 - |queue|;
      ArriveIn(queue, sched, i, j) == queue + frames[..Min(|frames|, room)]
    decreases j
  {
    hide ArriveAll, Frames;
    if i < j {
      ArriveInExactly(queue, sched, i, j - 1);
      var a, b, room := FramesIn(sched, i, j - 1), Frames(sched(j - 1)), RX_QUEUE_NUM - 1 - |queue|;
      ArriveAllExactly(ArriveIn(queue, sched, i, j - 1), sched(j - 1));
      FirstOfBoth(a, b, room);
      Associate(queue, a[..Min(|a|, room)], b[..Min(|b|, room - Min(|a|, room))]);
    } else {
      assert queue + [] == queue;
    }
  }

  lemma Associate(a: seq<Frame>, b: seq<Frame>, c: seq<Frame>)
    ensures (a + b) + c == a + (b + c)
  {
  }

  lemma FirstOfBoth(a: seq<Frame>, b: seq<Frame>, n: nat)
    ensures (a + b)[..Min(|a + b|, n)] == a[..Min(|a|, n)] + b[..Min(|b|, n - Min(|a|, n))]
  {
  }

  lemma {:induction false} ArriveInCompose(queue: seq<Frame>, sched: nat -> seq<Event>, i: nat, j: nat, k: nat)
    requires i <= j <= k
    ensures ArriveIn(ArriveIn(queue, sched, i, j), sched, j, k) == ArriveIn(queue, sched, i, k)
    decreases k
  {
    if j < k {
      ArriveInCompose(queue, sched, i, j, k - 1);
    }
  }

  lemma {:induction false} ArriveInKeeps(queue: seq<Frame>, sched: nat -> seq<Event>, i: nat, j: nat)
    requires i <= j
    ensures queue <= ArriveIn(queue, sched, i, j)
    decreases j
  {
    if i < j {
      ArriveInKeeps(queue, sched, i, j - 1);
      ArriveAllKeeps(ArriveIn(queue, sched, i, j - 1), sched(j - 1));
    }
  }

  // The FIFO in windows w to w' if its head leaves at the start of each of the windows ks.
  function Popped(queue: seq<Frame>, sched: nat -> seq<Event>, w: nat, ks: seq<nat>, w': nat): seq<Frame>
    decreases |ks|
  {
    if ks == [] then ArriveIn(queue, sched, w, w')
    else
      var k := ks[|ks| - 1];
      var q := Popped(queue, sched, w, ks[..|ks| - 1], k);
      ArriveIn(if q == [] then [] else q[1..], sched, k, w')
  }

  // The windows are in order, and there is a frame each time one leaves.
  ghost predicate Removes(queue: seq<Frame>, sched: nat -> seq<Event>, w: nat, ks: seq<nat>, w': nat)
    decreases |ks|
  {
    if ks == [] then w <= w'
    else
      var k := ks[|ks| - 1];
      && Removes(queue, sched, w, ks[..|ks| - 1], k)
      && k <= w' && Popped(queue, sched, w, ks[..|ks| - 1], k) != []
  }

  lemma PoppedNone(queue: seq<Frame>, sched: nat -> seq<Event>, w: nat, w': nat)
    requires w <= w'
    ensures Popped(queue, sched, w, [], w') == ArriveIn(queue, sched, w, w') && Removes(queue, sched, w, [], w')
  {
  }

  lemma PoppedOn(queue: seq<Frame>, sched: nat -> seq<Event>, w: nat, ks: seq<nat>, i: nat, j: nat)
    requires Removes(queue, sched, w, ks, i) && i <= j
    ensures Removes(queue, sched, w, ks, j)
    ensures Popped(queue, sched, w, ks, j) == ArriveIn(Popped(queue, sched, w, ks, i), sched, i, j)
  {
    hide ArriveIn;
    if ks == [] {
      ArriveInCompose(queue, sched, w, i, j);
    } else {
      var k := ks[|ks| - 1];
      var q := Popped(queue, sched, w, ks[..|ks| - 1], k);
      ArriveInCompose(q[1..], sched, k, i, j);
    }
  }

  lemma PoppedMore(queue: seq<Frame>, sched: nat -> seq<Event>, w: nat, ks: seq<nat>, k: nat, w': nat)
    requires Removes(queue, sched, w, ks, k) && k <= w' && Popped(queue, sched, w, ks, k) != []
    ensures Removes(queue, sched, w, ks + [k], w')
    ensures Popped(queue, sched, w, ks + [k], w') == ArriveIn(Popped(queue, sched, w, ks, k)[1..], sched, k, w')
  {
    assert (ks + [k])[..|ks|] == ks;
  }

  ghost predicate Quiet(sched: nat -> seq<Event>) {
    forall w :: sched(w) == []
  }

  lemma {:induction false} QuietIn(queue: seq<Frame>, sched: nat -> seq<Event>, i: nat, j: nat)
    requires Quiet(sched)
    ensures ArriveIn(queue, sched, i, j) == queue
    decreases j
  {
    if i < j {
      QuietIn(queue, sched, i, j - 1);
    }
  }

  // Without arrivals the frames that leave are the oldest ones.
  lemma {:induction false} QuietPopped(queue: seq<Frame>, sched: nat -> seq<Event>, w: nat, ks: seq<nat>, w': nat)
    requires Quiet(sched) && Removes(queue, sched, w, ks, w')
    ensures |ks| <= |queue| && Popped(queue, sched, w, ks, w') == queue[|ks|..]
    decreases |ks|
  {
    hide ArriveIn;
    if ks == [] {
      QuietIn(queue, sched, w, w');
    } else {
      var n := |ks| - 1;
      QuietPopped(queue, sched, w, ks[..n], ks[n]);
      QuietIn(queue[n..][1..], sched, ks[n], w');
    }
  }

  // ---------------------------------------------------------------- pbuf chains

  function Sum(chain: seq<nat>): nat {
    if chain == [] then 0 else Sum(chain[..|chain| - 1]) + chain[|chain| - 1]
  }

  // What pbuf_alloc guarantees of the lengths in a chain for len bytes.
  predicate IsChain(chain: seq<nat>, len: nat) {
    chain != [] && 0 !in chain && Sum(chain) == len
  }

  // What is written if every pbuf of the chain takes the start of a frame of its own.
  function Filled(queue: seq<Frame>, chain: seq<nat>): (data: seq<seq<byte>>)
    ensures |data| == |chain|
  {
    seq(|chain|, i requires 0 <= i < |chain| => Start(queue, i, chain[i]))
  }

  function Start(queue: seq<Frame>, i: nat, size: nat): seq<byte> {
    if i < |queue| then queue[i][..Min(|queue[i]|, size)] else []
  }

  // The frame arrives whole if it gets one pbuf, or if the next frame happens to start with the tail.
  predicate Whole(queue: seq<Frame>, chain: seq<nat>)
    requires queue != [] && IsChain(chain, |queue[0]|)
  {
    |chain| == 1 || (|chain| == 2 && chain[0] <= |queue[0]| && Start(queue, 1, chain[1]) == queue[0][chain[0]..])
  }

  lemma {:induction false} FilledLength(queue: seq<Frame>, chain: seq<nat>)
    requires 0 !in chain
    ensures |Flat(Filled(queue, chain))| <= Sum(chain)
    ensures |queue| < |chain| ==> |Flat(Filled(queue, chain))| < Sum(chain)
    decreases |chain|
  {
    if chain != [] {
      var n := |chain| - 1;
      FilledLength(queue, chain[..n]);
      assert Filled(queue, chain)[..n] == Filled(queue, chain[..n]);
      assert chain[n] in chain;
    }
  }

  // Exactly when low_level_input delivers the frame, for the queues the ring can hold.
  lemma WholeExactly(queue: seq<Frame>, chain: seq<nat>)
    requires 0 < |queue| < RX_QUEUE_NUM && IsChain(chain, |queue[0]|)
    ensures Flat(Filled(queue, chain)) == queue[0] <==> Whole(queue, chain)
    ensures |queue| == 1 ==> (Whole(queue, chain) <==> |chain| == 1)
  {
    FilledLength(queue, chain);
    if |chain| <= 2 {
      var d: seq<seq<byte>> := Filled(queue, chain);
      assert chain[..1][..0] == [] && d[..1][..0] == [];
      assert Sum(chain[..1]) == chain[0] && Flat(d[..1]) == d[0];
      assert |chain| == 2 ==> chain[..2] == chain && d[..2] == d && chain[1] in chain;
      assert chain[0] <= |queue[0]| && d[0] == queue[0][..chain[0]];
      assert queue[0] == queue[0][..chain[0]] + queue[0][chain[0]..];
    }
  }

  // A frame of two bytes that gets two pbufs of one byte loses the second.
  lemma TailIsLost()
    ensures IsChain([1, 1], 2) && Flat(Filled([[1, 2]], [1, 1])) == [1]
  {
    assert [1, 1][..1] == [1] && [1][..0] == [];
    var d: seq<seq<byte>> := Filled([[1, 2]], [1, 1]);
    assert d[0] == [1] && d[1] == [] && d == [[1], []];
    assert d[..1] == [[1]] && d[..1][..0] == [] && [[1 as byte], []][..1] == [[1]];
  }

  // ---------------------------------------------------------------- the ring

  class Ring {
    var recvIndex: nat            // RecvIndex: the slot the DMA engine fills next
    var readIndex: nat            // ReadIndex: the slot the main loop reads next
    var remain: nat               // RemainCout
    var status: seq<nat>          // RxBufStau
    var length: seq<nat>          // RxBufLen
    var slots: seq<seq<byte>>     // MACRxBuf
    var dma: nat                  // the slot in R16_ETH_ERXST
    ghost var queue: seq<Frame>   // frames accepted and not yet taken out
    ghost var popping: bool       // the main loop has advanced ReadIndex but not yet decremented RemainCout

    // The slot of the oldest frame in the queue.
    ghost function Base(): int
      reads `readIndex, `popping
    {
      if !popping then readIndex else if readIndex == 0 then RX_QUEUE_NUM - 1 else readIndex - 1
    }

    ghost function SlotOf(i: nat): int
      reads `readIndex, `popping
    {
      if Base() + i >= RX_QUEUE_NUM then Base() + i - RX_QUEUE_NUM else Base() + i
    }

    ghost predicate Valid()
      reads this
    {
      && |status| == |length| == |slots| == RX_QUEUE_NUM
      && (forall s :: s in slots ==> |s| == RX_BUF_SIZE)
      && recvIndex < RX_QUEUE_NUM && dma == recvIndex
      && (if popping then readIndex <= RX_QUEUE_NUM && 0 < remain else readIndex < RX_QUEUE_NUM)
      && remain == |queue| < RX_QUEUE_NUM
      && recvIndex == SlotOf(remain)
      && forall i :: 0 <= i < |queue| ==> HoldsFrame(SlotOf(i), queue[i])
    }

    ghost predicate HoldsFrame(slot: int, f: Frame)
      requires |length| == |slots| == RX_QUEUE_NUM && 0 <= slot < RX_QUEUE_NUM
      reads `length, `slots
    {
      length[slot] == |f| && f <= slots[slot]
    }

    // Outside the few statements that take a frame out, the three counters fit together.
    lemma CountersFit()
      requires Valid() && !popping
      ensures recvIndex == (readIndex + remain) % RX_QUEUE_NUM
    {
    }

    // The slot the DMA engine writes to holds no unread frame, the one being copied included.
    lemma DmaAvoidsUnread(i: nat)
      requires Valid() && i < |queue|
      ensures dma != SlotOf(i)
    {
    }

    // ETHParaInitX and the first R16_ETH_ERXST
    constructor ()
      ensures Valid() && queue == [] && !popping
    {
      recvIndex, readIndex, remain, dma := 0, 0, 0, 0;
      status, length := [0, 0, 0], [0, 0, 0];
      var zeros := seq(RX_BUF_SIZE, i => 0);
      slots := [zeros, zeros, zeros];
      queue, popping := [], false;
    }

    // The DMA engine writes bytes to the start of its slot.
    method DmaWrite(bytes: Frame)
      requires Valid()
      modifies this`slots
      ensures Valid() && slots == old(slots)[dma := slots[dma]] && bytes <= slots[dma]
    {
      slots := slots[dma := bytes + slots[dma][|bytes|..]];
    }

    // Note the length of the frame in the slot of the DMA engine.
    method MarkReceived(recLen: nat)
      requires Valid()
      modifies this`status, this`length
      ensures Valid() && length[recvIndex] == recLen
    {
      status, length := status[recvIndex := 1], length[recvIndex := recLen];
      forall i | 0 <= i < |queue|
        ensures HoldsFrame(SlotOf(i), queue[i])
      {
        DmaAvoidsUnread(i);
        assert old(HoldsFrame(SlotOf(i), queue[i]));
      }
    }

    // Queue the frame noted in the slot of the DMA engine and give the engine the next slot.
    method Accept(frame: Frame)
      requires Valid() && remain < RX_QUEUE_NUM - 1 && HoldsFrame(dma, frame)
      modifies this`recvIndex, this`remain, this`dma, this`queue
      ensures Valid() && queue == old(queue) + [frame]
    {
      hide HoldsFrame;
      remain := remain + 1;
      recvIndex := recvIndex + 1;
      if recvIndex >= RX_QUEUE_NUM {
        recvIndex := 0;
      }
      dma := recvIndex;
      queue := queue + [frame];
    }

    lemma FrameArrived(frame: Frame)
      requires Valid() && frame <= slots[dma] && length[dma] == |frame|
      ensures HoldsFrame(dma, frame) && remain == |queue| && dma == recvIndex
    {
    }

    // ETH_IRQHandler, receive branch, once the DMA engine has written the frame.
    method Interrupt(frame: Frame)
      requires Valid() && frame <= slots[dma]
      modifies this`recvIndex, this`remain, this`status, this`length, this`dma, this`queue
      ensures Valid() && queue == Arrive(old(queue), Received(frame))
      ensures queue == if |old(queue)| < RX_QUEUE_NUM - 1 then old(queue) + [frame] else old(queue)
    {
      MarkReceived(|frame|);
      FrameArrived(frame);
      hide HoldsFrame, Valid;
      if remain < RX_QUEUE_NUM - 1 {
        Accept(frame);
      }
    }

    // Whatever happens between two statements of the main loop.
    method Window(events: seq<Event>)
      requires Valid()
      modifies this`recvIndex, this`remain, this`status, this`length, this`dma, this`queue, this`slots
      ensures Valid() && queue == ArriveAll(old(queue), events)
    {
      for n := 0 to |events|
        invariant Valid() && queue == ArriveAll(old(queue), events[..n])
      {
        assert events[..n + 1][..n] == events[..n];
        match events[n] {
          case Dma(bytes) => DmaWrite(bytes);
          case Received(frame) =>
            DmaWrite(frame);
            Interrupt(frame);
        }
      }
      assert events[..|events|] == events;
    }

    // One window; start was the queue before window w0.
    method Pass(sched: nat -> seq<Event>, w: nat, ghost start: seq<Frame>, ghost w0: nat)
      requires Valid() && w0 <= w && queue == ArriveIn(start, sched, w0, w)
      modifies this`recvIndex, this`remain, this`status, this`length, this`dma, this`queue, this`slots
      ensures Valid() && queue == ArriveIn(start, sched, w0, w + 1) && old(queue) <= queue
    {
      hide Valid, ArriveAll;
      ArriveAllKeeps(queue, sched(w));
      Window(sched(w));
    }

    // The memcpy of ETHRecX, byte by byte, with a window before each byte.
    method CopyOut(recvLen: nat, sched: nat -> seq<Event>, w: nat) returns (data: seq<byte>, w': nat)
      requires Valid() && !popping && queue != [] && recvLen <= |queue[0]|
      modifies this`recvIndex, this`remain, this`status, this`length, this`dma, this`queue, this`slots
      ensures Valid() && w <= w' && queue == ArriveIn(old(queue), sched, w, w') && old(queue) <= queue
      ensures data == old(queue)[0][..recvLen]
    {
      hide HoldsFrame;
      data, w' := [], w;
      while |data| < recvLen
        invariant Valid() && w <= w'
        invariant |data| <= recvLen && data == old(queue)[0][..|data|]
        invariant queue == ArriveIn(old(queue), sched, w, w') && old(queue) <= queue
      {
        ArriveAllKeeps(queue, sched(w'));
        Window(sched(w'));
        w' := w' + 1;
        HeadByte(|data|);
        data := data + [slots[readIndex][|data|]];
      }
    }

    lemma HeadByte(n: nat)
      requires Valid() && !popping && queue != [] && n < |queue[0]|
      ensures n < RX_BUF_SIZE && slots[readIndex][n] == queue[0][n]
    {
      assert HoldsFrame(SlotOf(0), queue[0]);
    }

    lemma HeadLength()
      requires Valid() && !popping && queue != []
      ensures readIndex < |length| && length[readIndex] == |queue[0]|
    {
      assert HoldsFrame(SlotOf(0), queue[0]);
    }

    // The statements of ETHRecX behind the copy: each may be preceded and followed by interrupts.
    method ClearStatus()
      requires Valid() && !popping && queue != []
      modifies this`status
      ensures Valid() && readIndex < |status| == |old(status)| && status == old(status)[readIndex := 0]
    {
      status := status[readIndex := 0];
      assert forall i :: 0 <= i < |queue| ==> old(HoldsFrame(SlotOf(i), queue[i]));
    }

    method AdvanceRead()
      requires Valid() && !popping && queue != []
      modifies this`readIndex, this`popping
      ensures Valid() && popping
    {
      ghost var base := Base();
      readIndex, popping := readIndex + 1, true;
      assert Base() == base;
      assert forall i :: 0 <= i < |queue| ==> old(HoldsFrame(SlotOf(i), queue[i]));
    }

    method WrapRead()
      requires Valid() && popping
      modifies this`readIndex
      ensures Valid() && readIndex < RX_QUEUE_NUM
    {
      ghost var base := Base();
      if readIndex >= RX_QUEUE_NUM {
        readIndex := 0;
      }
      assert Base() == base;
      assert forall i :: 0 <= i < |queue| ==> old(HoldsFrame(SlotOf(i), queue[i]));
    }

    method DecrementRemain()
      requires Valid() && popping && readIndex < RX_QUEUE_NUM
      modifies this`remain, this`popping, this`queue
      ensures Valid() && !popping && old(queue) != [] && queue == old(queue)[1..]
    {
      remain, popping, queue := remain - 1, false, queue[1..];
      forall i | 0 <= i < |queue|
        ensures HoldsFrame(SlotOf(i), queue[i])
      {
        assert old(HoldsFrame(SlotOf(i + 1), queue[i + 1]));
        assert SlotOf(i) == old(SlotOf(i + 1));
      }
    }

    method TakeOut(sched: nat -> seq<Event>, w: nat)
      requires Valid() && !popping && queue != []
      modifies this
      ensures Valid() && !popping
      ensures old(queue) <= ArriveIn(old(queue), sched, w, w + 4)
      ensures queue == ArriveIn(ArriveIn(old(queue), sched, w, w + 4)[1..], sched, w + 4, w + 5)
    {
      hide Valid, HoldsFrame, SlotOf, Base, ArriveAll;
      Pass(sched, w, queue, w);
      ClearStatus();
      Pass(sched, w + 1, old(queue), w);
      AdvanceRead();
      Pass(sched, w + 2, old(queue), w);
      WrapRead();
      Pass(sched, w + 3, old(queue), w);
      DecrementRemain();
      Pass(sched, w + 4, queue, w + 4);
    }

    // ETHRecX.  sched says what the hardware does in the windows between its statements; the frame
    // leaves the queue after windows w to k.
    method ETHRecX(size: nat, sched: nat -> seq<Event>, w: nat)
      returns (data: seq<byte>, w': nat, ghost k: nat)
      requires Valid() && !popping
      modifies this
      ensures Valid() && !popping && w <= k <= w'
      ensures old(queue) == [] ==> data == [] && queue == [] && w' == w
      ensures old(queue) != [] ==>
                && old(queue) <= ArriveIn(old(queue), sched, w, k)
                && queue == ArriveIn(ArriveIn(old(queue), sched, w, k)[1..], sched, k, w')
                && data == old(queue)[0][..Min(|old(queue)[0]|, size)]
    {
      data, w', k := [], w, w;
      QueueCount();
      if remain == 0 {
        return;
      }
      hide Valid, ArriveAll, ArriveIn;
      data, w' := CopyHead(size, sched, w);
      ghost var before := w';
      TakeOut(sched, w');
      w', k := w' + 5, w' + 4;
      ArriveInCompose(old(queue), sched, w, before, k);
      ArriveInKeeps(old(queue), sched, w, k);
    }

    // What ETHRecX reads: the length, a window after its test, and the bytes.
    method CopyHead(size: nat, sched: nat -> seq<Event>, w: nat) returns (data: seq<byte>, w': nat)
      requires Valid() && !popping && queue != []
      modifies this`recvIndex, this`remain, this`status, this`length, this`dma, this`queue, this`slots
      ensures Valid() && w <= w' && queue == ArriveIn(old(queue), sched, w, w') && old(queue) <= queue
      ensures data == old(queue)[0][..Min(|old(queue)[0]|, size)]
    {
      hide Valid, ArriveAll;
      Pass(sched, w, queue, w);
      HeadLength();
      data, w' := CopyOut(Min(length[readIndex], size), sched, w + 1);
      ArriveInCompose(old(queue), sched, w, w + 1, w');
    }

    lemma QueueCount()
      requires Valid()
      ensures remain == |queue| < RX_QUEUE_NUM
    {
    }

    // GetRecvMacDataLen, with a window between its test and its read.
    method GetRecvMacDataLen(sched: nat -> seq<Event>, w: nat) returns (len: nat, w': nat)
      requires Valid() && !popping
      modifies this
      ensures Valid() && !popping && w <= w' && queue == ArriveIn(old(queue), sched, w, w')
      ensures len == if old(queue) == [] then 0 else |old(queue)[0]|
    {
      QueueCount();
      if remain == 0 {
        return 0, w;
      }
      hide Valid, ArriveAll;
      Pass(sched, w, queue, w);
      HeadLength();
      len, w' := length[readIndex], w + 1;
    }

    // One round of the loop of low_level_input, after a window: the frame leaves at window k, unless
    // there is none.
    method FillPbuf(size: nat, sched: nat -> seq<Event>, w: nat, ghost start: seq<Frame>, ghost w0: nat,
                    ghost ks: seq<nat>)
      returns (data: seq<byte>, w': nat, ghost ks': seq<nat>)
      requires Valid() && !popping
      requires queue == Popped(start, sched, w0, ks, w) && Removes(start, sched, w0, ks, w)
      modifies this
      ensures Valid() && !popping && w <= w'
      ensures queue == Popped(start, sched, w0, ks', w') && Removes(start, sched, w0, ks', w')
      ensures |ks| <= |ks'| <= |ks| + 1
      ensures old(queue) != [] ==> |ks'| == |ks| + 1 && old(queue)[1..] <= queue
      ensures |ks'| == |ks| ==> data == []
      ensures old(queue) != [] ==> data == old(queue)[0][..Min(|old(queue)[0]|, size)]
    {
      hide Valid, ArriveAll, Popped, Removes;
      Pass(sched, w, queue, w);
      PoppedOn(start, sched, w0, ks, w, w + 1);
      ghost var q := queue;
      ghost var k;
      data, w', k := ETHRecX(size, sched, w + 1);
      ks' := ks;
      if q != [] {
        PoppedOn(start, sched, w0, ks, w + 1, k);
        PoppedMore(start, sched, w0, ks, k, w');
        ArriveInKeeps(ArriveIn(q, sched, w + 1, k)[1..], sched, k, w');
        ks' := ks + [k];
      }
    }

    // The loop over the pbuf chain.
    method Fill(chain: seq<nat>, sched: nat -> seq<Event>, w: nat, ghost start: seq<Frame>, ghost w0: nat)
      returns (data: seq<seq<byte>>, w': nat, ghost ks: seq<nat>)
      requires Valid() && !popping && start <= queue
      requires w0 <= w && queue == ArriveIn(start, sched, w0, w)
      modifies this
      ensures Valid() && !popping && w <= w' && |data| == |chain|
      ensures queue == Popped(start, sched, w0, ks, w') && Removes(start, sched, w0, ks, w')
      ensures Min(|chain|, |start|) <= |ks| <= |chain|
      ensures forall i :: 0 <= i < |chain| && i < |start| ==> data[i] == Start(start, i, chain[i])
      ensures Quiet(sched) ==> data == Filled(start, chain)
    {
      hide Valid, ArriveAll, ArriveIn, Quiet, Popped, Removes;
      PoppedNone(start, sched, w0, w);
      data, w', ks := [], w, [];
      for n := 0 to |chain|
        invariant Valid() && !popping && w <= w' && |data| == n
        invariant queue == Popped(start, sched, w0, ks, w') && Removes(start, sched, w0, ks, w')
        invariant Min(n, |start|) <= |ks| <= n && (n <= |start| ==> start[n..] <= queue)
        invariant forall i :: 0 <= i < n && i < |start| ==> data[i] == Start(start, i, chain[i])
        invariant Quiet(sched) ==> forall i :: |start| <= i < n ==> data[i] == []
      {
        var d;
        d, w', ks := FillPbuf(chain[n], sched, w', start, w0, ks);
        data := data + [d];
        if n < |start| {
          assert start[n..][1..] == start[n + 1..];
        }
        if Quiet(sched) {
          QuietPopped(start, sched, w0, ks, w');
        }
      }
    }

    // The pbuf chain is filled.
    method Deliver(chain: seq<nat>, sched: nat -> seq<Event>, w: nat, ghost start: seq<Frame>, ghost w0: nat)
      returns (data: seq<seq<byte>>, w': nat, ghost ks: seq<nat>)
      requires Valid() && !popping && start != [] && start <= queue && IsChain(chain, |start[0]|)
      requires w0 <= w && queue == ArriveIn(start, sched, w0, w)
      modifies this
      ensures Valid() && !popping && w <= w'
      ensures queue == Popped(start, sched, w0, ks, w') && Removes(start, sched, w0, ks, w')
      ensures Delivered(start, chain, data, |ks|)
      ensures Quiet(sched) ==> DeliveredQuietly(start, chain, data, queue)
    {
      QueueCount();
      hide Valid, ArriveAll, ArriveIn, Popped, Removes, Whole, Quiet, IsChain, Filled, Start, Flat;
      data, w', ks := Fill(chain, sched, w, start, w0);
      OnePbuf(start, chain);
      if Quiet(sched) {
        QuietPopped(start, sched, w0, ks, w');
        WholeExactly(start, chain);
      }
    }

    // low_level_input.  alloc says which pbuf lengths pbuf_alloc hands out for a frame length.  A frame
    // that fails to be allocated stays.  Otherwise every pbuf takes the start of a frame of its own, which
    // is removed, so that a frame that gets one pbuf arrives whole; one that gets more loses its tail
    // unless the next frame starts with it.
    method LowLevelInput(alloc: nat -> Option<seq<nat>>, sched: nat -> seq<Event>, w: nat)
      returns (p: Option<seq<seq<byte>>>, w': nat, ghost ks: seq<nat>)
      requires Valid() && !popping
      requires forall len: nat :: 0 < len && alloc(len).Some? ==> IsChain(alloc(len).value, len)
      modifies this
      ensures Valid() && !popping && w <= w'
      ensures queue == Popped(old(queue), sched, w, ks, w') && Removes(old(queue), sched, w, ks, w')
      ensures p.Some? <==> old(queue) != [] && |old(queue)[0]| > 0 && alloc(|old(queue)[0]|).Some?
      ensures p.None? ==> ks == []
      ensures p.Some? ==> Delivered(old(queue), alloc(|old(queue)[0]|).value, p.value, |ks|)
      ensures p.Some? && Quiet(sched) ==>
                DeliveredQuietly(old(queue), alloc(|old(queue)[0]|).value, p.value, queue)
    {
      hide Valid, ArriveAll, ArriveIn, Popped, Removes, Quiet, IsChain, Delivered, DeliveredQuietly;
      var len;
      len, w' := GetRecvMacDataLen(sched, w);
      PoppedNone(old(queue), sched, w, w');
      p, ks := None, [];
      if len == 0 {
        return;
      }
      var q := alloc(len);
      if q.None? {
        return;
      }
      ArriveInKeeps(old(queue), sched, w, w');
      var data: seq<seq<byte>>;
      data, w', ks := Deliver(q.value, sched, w', old(queue), w);
      p := Some(data);
    }
  }

  // What the pbufs hold, and how many frames are gone.
  ghost predicate Delivered(queue: seq<Frame>, chain: seq<nat>, data: seq<seq<byte>>, gone: nat)
    requires queue != []
  {
    && |data| == |chain|
    && (forall i :: 0 <= i < |chain| && i < |queue| ==> data[i] == Start(queue, i, chain[i]))
    && Min(|chain|, |queue|) <= gone <= |chain|
    && (|chain| == 1 ==> data == [queue[0]] && gone == 1)
  }

  // Without arrivals: which frames are left, and exactly when the first one was delivered.
  ghost predicate DeliveredQuietly(queue: seq<Frame>, chain: seq<nat>, data: seq<seq<byte>>, left: seq<Frame>)
    requires queue != []
  {
    && IsChain(chain, |queue[0]|)
    && left == queue[Min(|chain|, |queue|)..]
    && data == Filled(queue, chain)
    && (Flat(data) == queue[0] <==> Whole(queue, chain))
  }

  lemma OnePbuf(queue: seq<Frame>, chain: seq<nat>)
    requires queue != [] && IsChain(chain, |queue[0]|)
    ensures |chain| == 1 ==> Start(queue, 0, chain[0]) == queue[0]
  {
    assert |chain| == 1 ==> chain[..0] == [] && Sum(chain) == 0 + chain[0];
  }
}
