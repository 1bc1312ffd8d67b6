// Runs of mem_free and mem_trim calls on a heap, and what every such run keeps.
module HeapRuns {
  import opened HeapBlocks
  import opened Wrappers

  // A call of mem_free or mem_trim; mem is the offset of the struct mem in front of the pointer.
  datatype Call = FreeCall(mem: nat) | TrimCall(mem: nat, newSize: MemSize)

  // Index of the live block at offset p, |b.used| if there is none.
  function LiveIndex(b: Blocks, p: nat, i: nat): (k: nat)
    requires b.WellFormed() && i <= |b.used|
    ensures i <= k <= |b.used|
    ensures k < |b.used| ==> b.starts[k] == p && b.used[k]
    ensures forall j :: i <= j < k ==> !(b.starts[j] == p && b.used[j])
    decreases |b.used| - i
  {
    if i == |b.used| || (b.starts[i] == p && b.used[i]) then i else LiveIndex(b, p, i + 1)
  }

  lemma LiveIndexIs(c: Config, b: Blocks, k: nat)
    requires c.Valid() && Tiled(c, b) && k < |b.used| && b.used[k]
    ensures LiveIndex(b, b.starts[k], 0) == k
  {
    StartsCompare(c, b, k, LiveIndex(b, b.starts[k], 0));
  }

  // The effect of one call; a call that names no live block changes nothing.
  function Apply(c: Config, b: Blocks, call: Call): (r: Blocks)
    requires b.WellFormed() && 0 < c.align
    ensures r.WellFormed()
  {
    var k := LiveIndex(b, call.mem, 0);
    if k == |b.used| then b
    else match call
      case FreeCall(_) => Release(b, k)
      case TrimCall(_, newSize) =>
        match RoundSize(c, newSize)
        case Invalid => b
        case Rounded(size) => Trim(c, b, k, size)
  }

  lemma ApplyValid(c: Config, b: Blocks, call: Call)
    requires Valid(c, b)
    ensures Valid(c, Apply(c, b, call))
  {
    var k := LiveIndex(b, call.mem, 0);
    if k < |b.used| {
      match call
      case FreeCall(_) => ReleaseValid(c, b, k);
      case TrimCall(_, newSize) =>
        RoundSizeExact(c, newSize);
        if RoundSize(c, newSize).Rounded? {
          TrimValid(c, b, k, RoundSize(c, newSize).size);
        }
    }
  }

  // Address x lies in the live block at offset p, header included.
  ghost predicate InBlock(b: Blocks, p: nat, x: nat)
    requires b.WellFormed()
  {
    exists e :: IsBlock(b, p, e) && p <= x < e
  }

  lemma BlockHolds(b: Blocks, p: nat, e: nat)
    requires b.WellFormed() && IsBlock(b, p, e)
    ensures forall x: nat :: p <= x < e ==> InBlock(b, p, x)
  {
  }

  lemma OneEnd(c: Config, b: Blocks, p: nat, e: nat, f: nat)
    requires c.Valid() && Tiled(c, b) && IsBlock(b, p, e) && IsBlock(b, p, f)
    ensures e == f
  {
    var i :| 0 <= i < |b.used| && b.starts[i] == p && b.starts[i + 1] == e && b.used[i];
    var j :| 0 <= j < |b.used| && b.starts[j] == p && b.starts[j + 1] == f && b.used[j];
    StartsCompare(c, b, i, j);
  }

  lemma OnlyBlockAt(c: Config, b: Blocks, p: nat, e: nat, x: nat)
    requires c.Valid() && Tiled(c, b) && IsBlock(b, p, e) && !(p <= x < e)
    ensures !InBlock(b, p, x)
  {
    assert b.WellFormed();
    hide Tiled, IsBlock;
    forall f | IsBlock(b, p, f)
      ensures f == e
    {
      OneEnd(c, b, p, e, f);
    }
  }

  // What mem_malloc's block is made of: room for the size inside the heap, where nothing was live.
  lemma AllocTakes(c: Config, b: Blocks, k: nat, size: nat)
    requires Valid(c, b) && k < |b.used| && Fits(c, b, k, size) && c.minSize <= size
    ensures var b', p := Alloc(c, b, k, size), b.starts[k];
            && k < |b'.used| && b'.starts[k] == p
            && p + c.header + size <= b'.starts[k + 1] <= c.memSize
            && IsBlock(b', p, b'.starts[k + 1])
            && (forall x: nat :: p <= x < b'.starts[k + 1] ==> !InLive(c, b, x))
  {
    var b' := Alloc(c, b, k, size);
    FreeHoldsNothing(c, b, k);
    AllocBounds(c, b, k, size);
    hide Valid, Alloc, InLive;
    assert IsBlock(b', b'.starts[k], b'.starts[k + 1]);
  }

  // Nothing is live in a free block.
  lemma FreeHoldsNothing(c: Config, b: Blocks, k: nat)
    requires Valid(c, b) && k < |b.used| && !b.used[k]
    ensures forall x: nat :: b.starts[k] <= x < b.starts[k + 1] ==> !InLive(c, b, x)
  {
    hide Coalesced;
    forall x: nat | b.starts[k] <= x < b.starts[k + 1] ensures !InLive(c, b, x) {
      forall j | 0 <= j < |b.used| && b.used[j] ensures !(b.starts[j] + c.header <= x < b.starts[j + 1]) {
        if j < k {
          assert b.starts[j + 1] <= b.starts[k];
        } else {
          assert b.starts[k + 1] <= b.starts[j];
        }
      }
    }
  }

  lemma AllocBounds(c: Config, b: Blocks, k: nat, size: nat)
    requires Valid(c, b) && k < |b.used| && Fits(c, b, k, size)
    ensures var b', p := Alloc(c, b, k, size), b.starts[k];
            && k < |b'.used| && b'.starts[k] == p && b'.used[k]
            && p + c.header + size <= b'.starts[k + 1] <= b.starts[k + 1] <= c.memSize
  {
    hide Coalesced;
    assert b.starts[k + 1] <= b.starts[|b.used|];
    if DataSize(c, b, k) >= size + c.header + c.minSize {
      SplitIsSplit(Blocks(b.starts, b.used[k := true]), k, b.starts[k] + c.header + size);
      hide Tiled, Split;
    }
  }

  lemma AllocatedPointerAligned(c: Config, b: Blocks, k: nat)
    requires c.Valid() && c.Aligned() && b.WellFormed() && AllAligned(c, b) && k < |b.used|
    ensures (b.starts[k] + c.header) % c.align == 0
  {
    assert b.starts[k] in b.starts;
    AlignedSum(c.align, b.starts[k], c.header);
  }

  // Every live address outside the new block was live before.
  lemma AllocOtherLive(c: Config, b: Blocks, k: nat, size: nat)
    requires Valid(c, b) && k < |b.used| && Fits(c, b, k, size) && c.minSize <= size
    ensures var b' := Alloc(c, b, k, size);
            k < |b'.used|
            && forall x: nat :: InLive(c, b', x) ==> InLive(c, b, x) || b.starts[k] <= x < b'.starts[k + 1]
  {
    hide Tiled, Coalesced;
    var b1, b', at := Blocks(b.starts, b.used[k := true]), Alloc(c, b, k, size), b.starts[k] + c.header + size;
    if DataSize(c, b, k) >= size + c.header + c.minSize {
      SplitIsSplit(b1, k, at);
      hide Split;
      forall x: nat | InLive(c, b', x) && !(b.starts[k] <= x < at)
        ensures InLive(c, b, x)
      {
        SplitOtherLive(c, b1, b', k, at, x);
      }
    }
  }

  // What was live stays live, outside the new block.
  lemma AllocKeepsLive(c: Config, b: Blocks, k: nat, size: nat, x: nat)
    requires Valid(c, b) && k < |b.used| && Fits(c, b, k, size) && InLive(c, b, x)
    ensures InLive(c, Alloc(c, b, k, size), x)
  {
    hide Tiled, Coalesced;
    var b1, b', at := Blocks(b.starts, b.used[k := true]), Alloc(c, b, k, size), b.starts[k] + c.header + size;
    var i :| 0 <= i < |b.used| && b.used[i] && b.starts[i] + c.header <= x < b.starts[i + 1];
    if DataSize(c, b, k) >= size + c.header + c.minSize {
      SplitIsSplit(b1, k, at);
      hide Split;
      var j := if i <= k then i else i + 1;
      assert b'.used[j] && b'.starts[j] == b.starts[i] && b'.starts[j + 1] == b.starts[i + 1];
    } else {
      assert b'.used[i] && b'.starts == b.starts;
    }
  }

  lemma SplitOtherLive(c: Config, b: Blocks, b': Blocks, k: nat, at: nat, x: nat)
    requires IsSplit(b, b', k, at) && InLive(c, b', x) && !(b.starts[k] <= x < at)
    ensures exists i :: 0 <= i < |b.used| && i != k && b.used[i] && b.starts[i] + c.header <= x < b.starts[i + 1]
  {
    var i :| 0 <= i < |b'.used| && b'.used[i] && b'.starts[i] + c.header <= x < b'.starts[i + 1];
    var j := if i > k then i - 1 else i;
    assert b.used[j] && b.starts[j] == b'.starts[i] && b.starts[j + 1] == b'.starts[i + 1];
  }

  lemma ApplyAligned(c: Config, b: Blocks, call: Call)
    requires c.Valid() && c.Aligned() && b.WellFormed() && AllAligned(c, b)
    ensures AllAligned(c, Apply(c, b, call))
  {
    var k := LiveIndex(b, call.mem, 0);
    if k < |b.used| {
      match call
      case FreeCall(_) => ReleaseAligned(c, b, k);
      case TrimCall(_, newSize) =>
        RoundSizeAligned(c, newSize);
        if RoundSize(c, newSize).Rounded? {
          TrimAligned(c, b, k, RoundSize(c, newSize).size);
        }
    }
  }

  // With MEM_SIZE 4096 a lone live block fills the heap; trimming it to 100 bytes runs into the assert
  // that its successor is not the end marker, although the list it would write is a valid heap.
  lemma TrimAssertFailsOnLastBlock()
    ensures var c, b := Config(4096, 8, 12, 4), Blocks([0, 4096], [true]);
            && Valid(c, b) && !TrimAsserts(c, b, 0, 100)
            && Apply(c, b, TrimCall(0, 100)) == Blocks([0, 108, 4096], [true, false])
            && Valid(c, Apply(c, b, TrimCall(0, 100)))
  {
    var c, b := Config(4096, 8, 12, 4), Blocks([0, 4096], [true]);
    AlignUpIsMask(4, 100);
    assert RoundSize(c, 100) == Rounded(100);
    assert LiveIndex(b, 0, 0) == 0;
    ApplyValid(c, b, TrimCall(0, 100));
  }

  // p is a live block that ends at offset e.
  ghost predicate IsBlock(b: Blocks, p: nat, e: nat)
    requires b.WellFormed()
  {
    exists k :: 0 <= k < |b.used| && b.starts[k] == p && b.starts[k + 1] == e && b.used[k]
  }

  // A call touches the block it names and no other live block.
  lemma ApplyKeepsOthers(c: Config, b: Blocks, call: Call, p: nat, e: nat)
    requires Valid(c, b) && IsBlock(b, p, e) && call.mem != p
    ensures IsBlock(Apply(c, b, call), p, e)
  {
    var k := LiveIndex(b, call.mem, 0);
    if k < |b.used| {
      match call
      case FreeCall(_) => ReleaseKeepsOthers(b, k, p, e);
      case TrimCall(_, newSize) =>
        if RoundSize(c, newSize).Rounded? {
          TrimKeepsOthers(c, b, k, RoundSize(c, newSize).size, p, e);
        }
    }
  }

  lemma MergeKeeps(b: Blocks, k: nat, p: nat, e: nat)
    requires b.WellFormed() && k + 1 < |b.used| && !b.used[k] && !b.used[k + 1] && IsBlock(b, p, e)
    ensures IsBlock(Merge(b, k), p, e)
  {
    var i :| 0 <= i < |b.used| && b.starts[i] == p && b.starts[i + 1] == e && b.used[i];
    var j := if i < k then i else i - 1;
    assert Merge(b, k).used[j] && Merge(b, k).starts[j] == p && Merge(b, k).starts[j + 1] == e;
  }

  lemma ReleaseKeepsOthers(b: Blocks, k: nat, p: nat, e: nat)
    requires b.WellFormed() && k < |b.used| && IsBlock(b, p, e) && b.starts[k] != p
    ensures IsBlock(Release(b, k), p, e)
  {
    var b0 := Blocks(b.starts, b.used[k := false]);
    assert IsBlock(b0, p, e);
    if k + 1 < |b0.used| && !b0.used[k + 1] {
      MergeKeeps(b0, k, p, e);
    }
    var b1 := PlugForward(b0, k);
    if 0 < k && !b1.used[k - 1] {
      MergeKeeps(b1, k - 1, p, e);
    }
  }

  lemma TrimKeepsOthers(c: Config, b: Blocks, k: nat, size: nat, p: nat, e: nat)
    requires b.WellFormed() && k < |b.used| && IsBlock(b, p, e) && b.starts[k] != p
    ensures IsBlock(Trim(c, b, k, size), p, e)
  {
    var b' := Trim(c, b, k, size);
    var i :| 0 <= i < |b.used| && b.starts[i] == p && b.starts[i + 1] == e && b.used[i];
    var j := if |b'.used| > |b.used| && i > k then i + 1 else i;
    assert b'.used[j] && b'.starts[j] == p && b'.starts[j + 1] == e;
  }

  // A call makes no new address live.
  lemma ApplyShrinksLive(c: Config, b: Blocks, call: Call, x: nat)
    requires Valid(c, b) && InLive(c, Apply(c, b, call), x)
    ensures InLive(c, b, x)
  {
    var k := LiveIndex(b, call.mem, 0);
    if k < |b.used| {
      match call
      case FreeCall(_) => ReleaseShrinksLive(c, b, k, x);
      case TrimCall(_, newSize) =>
        if RoundSize(c, newSize).Rounded? {
          TrimShrinksLive(c, b, k, RoundSize(c, newSize).size, x);
        }
    }
  }

  lemma TrimShrinksLive(c: Config, b: Blocks, k: nat, size: nat, x: nat)
    requires c.Valid() && Tiled(c, b) && k < |b.used| && b.used[k] && InLive(c, Trim(c, b, k, size), x)
    ensures InLive(c, b, x)
  {
    var at := b.starts[k] + c.header + size;
    if size < DataSize(c, b, k) {
      if k + 1 < |b.used| && !b.used[k + 1] {
        MoveLive(c, b, k, at, x);
      } else if size + c.header + c.minSize <= DataSize(c, b, k) {
        SplitLive(c, b, k, at, x);
      }
    }
  }

  lemma MoveLive(c: Config, b: Blocks, k: nat, at: nat, x: nat)
    requires b.WellFormed() && k + 1 < |b.used| && b.used[k] && !b.used[k + 1] && at <= b.starts[k + 1]
    requires InLive(c, Move(b, k, at), x)
    ensures InLive(c, b, x)
  {
  }

  lemma SplitLive(c: Config, b: Blocks, k: nat, at: nat, x: nat)
    requires b.WellFormed() && k < |b.used| && b.used[k] && at <= b.starts[k + 1]
    requires InLive(c, Split(b, k, at), x)
    ensures InLive(c, b, x)
  {
    var b' := Split(b, k, at);
    var i :| 0 <= i < |b'.used| && b'.used[i] && b'.starts[i] + c.header <= x < b'.starts[i + 1];
    var j := if i > k then i - 1 else i;
    assert b.used[j] && b.starts[j] + c.header <= x < b.starts[j + 1];
  }

  // ---------------------------------------------------------------- what other contexts do meanwhile

  // The calls other contexts make while the heap is unprotected.  The block `busy` is the one
  // mem_malloc is setting up; no other context has its address yet.
  function RunCalls(c: Config, b: Blocks, calls: seq<Call>, busy: Option<nat>): (r: Blocks)
    requires b.WellFormed() && 0 < c.align
    ensures r.WellFormed()
  {
    if calls == [] then b
    else
      var b' := RunCalls(c, b, calls[..|calls| - 1], busy);
      var call := calls[|calls| - 1];
      if busy == Some(call.mem) then b' else Apply(c, b', call)
  }

  // sched[w] lists the calls made in the w-th unprotected window; from |sched| on, none are made.
  function CallsAt(sched: seq<seq<Call>>, w: nat): seq<Call> {
    if w < |sched| then sched[w] else []
  }

  function RunWindows(c: Config, b: Blocks, sched: seq<seq<Call>>, i: nat, j: nat, busy: Option<nat>): (r: Blocks)
    requires b.WellFormed() && 0 < c.align && i <= j
    ensures r.WellFormed()
    decreases j
  {
    if i == j then b
    else RunCalls(c, RunWindows(c, b, sched, i, j - 1, busy), CallsAt(sched, j - 1), busy)
  }

  lemma {:induction false} RunCallsValid(c: Config, b: Blocks, calls: seq<Call>, busy: Option<nat>)
    requires Valid(c, b)
    ensures Valid(c, RunCalls(c, b, calls, busy))
  {
    if calls != [] {
      RunCallsValid(c, b, calls[..|calls| - 1], busy);
      ApplyValid(c, RunCalls(c, b, calls[..|calls| - 1], busy), calls[|calls| - 1]);
    }
  }

  lemma {:induction false} RunCallsShrinkLive(c: Config, b: Blocks, calls: seq<Call>, busy: Option<nat>, x: nat)
    requires Valid(c, b) && InLive(c, RunCalls(c, b, calls, busy), x)
    ensures InLive(c, b, x)
  {
    if calls != [] {
      var rest, call := calls[..|calls| - 1], calls[|calls| - 1];
      RunCallsValid(c, b, rest, busy);
      if busy != Some(call.mem) {
        ApplyShrinksLive(c, RunCalls(c, b, rest, busy), call, x);
      }
      RunCallsShrinkLive(c, b, rest, busy, x);
    }
  }

  lemma RunCallsShrinkAllLive(c: Config, b: Blocks, calls: seq<Call>, busy: Option<nat>)
    requires Valid(c, b)
    ensures forall x: nat :: InLive(c, RunCalls(c, b, calls, busy), x) ==> InLive(c, b, x)
  {
    forall x: nat | InLive(c, RunCalls(c, b, calls, busy), x)
      ensures InLive(c, b, x)
    {
      RunCallsShrinkLive(c, b, calls, busy, x);
    }
  }

  lemma {:induction false} RunCallsKeepBusy(c: Config, b: Blocks, calls: seq<Call>, p: nat, e: nat)
    requires Valid(c, b) && IsBlock(b, p, e)
    ensures IsBlock(RunCalls(c, b, calls, Some(p)), p, e)
  {
    if calls != [] {
      var rest, call := calls[..|calls| - 1], calls[|calls| - 1];
      RunCallsValid(c, b, rest, Some(p));
      RunCallsKeepBusy(c, b, rest, p, e);
      if call.mem != p {
        ApplyKeepsOthers(c, RunCalls(c, b, rest, Some(p)), call, p, e);
      }
    }
  }

  lemma {:induction false} RunWindowsShrinkLive(
      c: Config, b: Blocks, sched: seq<seq<Call>>, i: nat, j: nat, busy: Option<nat>, x: nat)
    requires Valid(c, b) && i <= j && InLive(c, RunWindows(c, b, sched, i, j, busy), x)
    ensures InLive(c, b, x)
    decreases j
  {
    hide Tiled, Coalesced, InLive, RunCalls;
    if i < j {
      RunWindowsValid(c, b, sched, i, j - 1, busy);
      RunCallsShrinkLive(c, RunWindows(c, b, sched, i, j - 1, busy), CallsAt(sched, j - 1), busy, x);
      RunWindowsShrinkLive(c, b, sched, i, j - 1, busy, x);
    }
  }

  lemma {:induction false} RunWindowsValid(
      c: Config, b: Blocks, sched: seq<seq<Call>>, i: nat, j: nat, busy: Option<nat>)
    requires Valid(c, b) && i <= j
    ensures Valid(c, RunWindows(c, b, sched, i, j, busy))
    decreases j
  {
    hide Tiled, Coalesced, InLive, RunCalls;
    if i < j {
      RunWindowsValid(c, b, sched, i, j - 1, busy);
      RunCallsValid(c, RunWindows(c, b, sched, i, j - 1, busy), CallsAt(sched, j - 1), busy);
    }
  }

  // The block mem_malloc has just taken, untouched by what other contexts do.
  lemma {:induction false} RunWindowsKeepBusy(
      c: Config, b: Blocks, sched: seq<seq<Call>>, i: nat, j: nat, p: nat, e: nat)
    requires Valid(c, b) && i <= j && IsBlock(b, p, e)
    ensures IsBlock(RunWindows(c, b, sched, i, j, Some(p)), p, e)
    decreases j
  {
    hide Tiled, Coalesced, IsBlock, RunCalls;
    if i < j {
      RunWindowsValid(c, b, sched, i, j - 1, Some(p));
      RunWindowsKeepBusy(c, b, sched, i, j - 1, p, e);
      RunCallsKeepBusy(c, RunWindows(c, b, sched, i, j - 1, Some(p)), CallsAt(sched, j - 1), p, e);
    }
  }

  lemma RunWindowsShrinkAllLive(c: Config, b: Blocks, sched: seq<seq<Call>>, i: nat, j: nat, busy: Option<nat>)
    requires Valid(c, b) && i <= j
    ensures forall x: nat :: InLive(c, RunWindows(c, b, sched, i, j, busy), x) ==> InLive(c, b, x)
  {
    forall x: nat | InLive(c, RunWindows(c, b, sched, i, j, busy), x)
      ensures InLive(c, b, x)
    {
      RunWindowsShrinkLive(c, b, sched, i, j, busy, x);
    }
  }

  lemma NoWindows(c: Config, b: Blocks, sched: seq<seq<Call>>, i: nat, busy: Option<nat>)
    requires b.WellFormed() && 0 < c.align
    ensures RunWindows(c, b, sched, i, i, busy) == b
  {
  }

  lemma {:induction false} RunWindowsCompose(
      c: Config, b: Blocks, sched: seq<seq<Call>>, i: nat, j: nat, k: nat, busy: Option<nat>)
    requires b.WellFormed() && 0 < c.align && i <= j <= k
    ensures RunWindows(c, RunWindows(c, b, sched, i, j, busy), sched, j, k, busy)
         == RunWindows(c, b, sched, i, k, busy)
    decreases k
  {
    hide RunCalls;
    if j < k {
      RunWindowsCompose(c, b, sched, i, j, k - 1, busy);
    }
  }

  // Without other contexts nothing happens in the windows.
  lemma {:induction false} QuietWindows(c: Config, b: Blocks, i: nat, j: nat, busy: Option<nat>)
    requires b.WellFormed() && 0 < c.align && i <= j
    ensures RunWindows(c, b, [], i, j, busy) == b
    decreases j
  {
    if i < j {
      QuietWindows(c, b, i, j - 1, busy);
    }
  }
}
