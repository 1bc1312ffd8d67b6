// mem.c: the heap allocator on its byte array.
module Heap {
  import opened HeapBlocks
  import opened HeapLive
  import opened HeapRuns
  import opened Wrappers

  const HEADER_BYTES := 5     // next, prev (u16 each) and used

  // How one pass of mem_malloc's scan ends.
  datatype ScanResult = Found(ptr: nat) | Interrupted | Exhausted

  // What mem_malloc does to the blocks b: the search ends after w1 windows, with NULL if nothing fits then,
  // and otherwise with the first fit taken, after which lfree is adjusted, up to window w2.
  ghost predicate MallocStep(c: Config, b: Blocks, sizeIn: MemSize, sched: seq<seq<Call>>, w1: nat, w2: nat,
                             r: Option<nat>, b': Blocks)
    requires b.WellFormed() && 0 < c.align
  {
    if sizeIn == 0 || RoundSize(c, sizeIn).Invalid? then r.None? && b' == b && w1 == w2 == 0
    else
      && w1 <= w2
      && var commit, size := RunWindows(c, b, sched, 0, w1, None), RoundSize(c, sizeIn).size;
         var k := FirstFit(c, commit, size, 0);
         if k == |commit.used| then r.None? && b' == commit
         else
           var p := commit.starts[k];
           r == Some(p + c.header) && b' == RunWindows(c, Alloc(c, commit, k, size), sched, w1, w2, Some(p))
  }

  // The same without the functions that compute it: the heap that is there when the search ends becomes
  // taken, on which others then go on.
  ghost predicate Mallocs(c: Config, b: Blocks, sizeIn: MemSize, sched: seq<seq<Call>>, w1: nat, w2: nat,
                          r: Option<nat>, b': Blocks)
    requires b.WellFormed() && 0 < c.align
  {
    w1 <= w2 && exists taken: Blocks {:trigger Malloced(c, RunWindows(c, b, sched, 0, w1, None), sizeIn, r, taken)} ::
      && taken.WellFormed() && Malloced(c, RunWindows(c, b, sched, 0, w1, None), sizeIn, r, taken)
      && b' == match r
               case None => taken
               case Some(mem) =>
                 RunWindows(c, taken, sched, w1, w2, Some(if c.header <= mem then mem - c.header else 0))
  }

  lemma StepMallocs(c: Config, b: Blocks, sizeIn: MemSize, sched: seq<seq<Call>>, w1: nat, w2: nat,
                    r: Option<nat>, b': Blocks)
    requires Valid(c, b) && MallocStep(c, b, sizeIn, sched, w1, w2, r, b')
    ensures Mallocs(c, b, sizeIn, sched, w1, w2, r, b')
  {
    hide Tiled, Coalesced, RunWindows, Malloced, Alloc, RoundSize;
    var commit := RunWindows(c, b, sched, 0, w1, None);
    RunWindowsValid(c, b, sched, 0, w1, None);
    if sizeIn == 0 || RoundSize(c, sizeIn).Invalid? {
      NoWindows(c, b, sched, 0, None);
      InvalidMalloced(c, b, sizeIn);
    } else {
      FitMalloced(c, commit, sizeIn);
    }
  }

  class Heap {
    const c: Config
    const ram: array<byte>
    var lfree: nat             // offset of the struct mem that lfree points to
    var freeCount: bool        // mem_free_count
    ghost var blocks: Blocks   // what the headers in ram spell out
    ghost var low: nat         // the index in blocks of the block lfree points to

    // ---------------------------------------------------------------- headers in ram

    function HeaderAt(p: nat): Header
      reads ram
    {
      if p + HEADER_BYTES <= ram.Length then
        Header(ram[p] as int + 256 * ram[p + 1] as int, ram[p + 2] as int + 256 * ram[p + 3] as int, ram[p + 4])
      else
        Header(0, 0, 0)
    }

    method PutNext(p: nat, v: nat)
      requires p + HEADER_BYTES <= ram.Length && v < MEM_SIZE_T_RANGE
      modifies ram
      ensures HeaderAt(p) == old(HeaderAt(p)).(next := v) && OnlyHeaderChanged(p)
    {
      ram[p] := v % 256;
      ram[p + 1] := v / 256;
    }

    method PutPrev(p: nat, v: nat)
      requires p + HEADER_BYTES <= ram.Length && v < MEM_SIZE_T_RANGE
      modifies ram
      ensures HeaderAt(p) == old(HeaderAt(p)).(prev := v) && OnlyHeaderChanged(p)
    {
      ram[p + 2] := v % 256;
      ram[p + 3] := v / 256;
    }

    method PutUsed(p: nat, v: byte)
      requires p + HEADER_BYTES <= ram.Length
      modifies ram
      ensures HeaderAt(p) == old(HeaderAt(p)).(used := v) && OnlyHeaderChanged(p)
    {
      ram[p + 4] := v;
    }

    twostate predicate OnlyHeaderChanged(p: nat)
      reads ram
    {
      && (forall q: nat {:trigger HeaderAt(q)} :: q + HEADER_BYTES <= p || p + HEADER_BYTES <= q ==>
            HeaderAt(q) == old(HeaderAt(q)))
      && (forall x: nat :: x < ram.Length && !(p <= x < p + HEADER_BYTES) ==> ram[x] == old(ram[x]))
    }

    // ---------------------------------------------------------------- invariant

    // The headers in ram are exactly the blocks, doubly linked, with the end marker behind them.
    ghost predicate HeadersAre(b: Blocks)
      reads ram
    {
      && b.WellFormed()
      && (forall i :: 0 <= i < |b.used| ==> HeaderIs(b, i))
      && HeaderAt(c.memSize) == Header(c.memSize, c.memSize, 1)
    }

    ghost predicate HeaderIs(b: Blocks, i: nat)
      requires b.WellFormed() && i < |b.used|
      reads ram
    {
      HeaderAt(b.starts[i]) == Spelled(b, i)
    }

    ghost predicate Linked()
      reads this, ram
    {
      && Valid(c, blocks)
      && ram.Length == c.memSize + c.header
      && HeadersAre(blocks)
      && low <= |blocks.used| && lfree == blocks.starts[low]
      && (forall i :: 0 <= i < low ==> blocks.used[i])
    }

    // lfree is the lowest free block, or the end marker.
    ghost predicate LfreeExact()
      requires blocks.WellFormed() && low <= |blocks.used|
      reads this
    {
      low == |blocks.used| || !blocks.used[low]
    }

    // mem_init
    constructor (c: Config)
      requires c.Valid()
      ensures this.c == c
      ensures Linked() && LfreeExact() && blocks == Initial(c) && fresh(ram) && lfree == 0 && !freeCount
    {
      this.c := c;
      ram := new byte[c.memSize + c.header];
      lfree := 0;
      freeCount := false;
      blocks, low := Initial(c), 0;
      new;
      PutNext(0, c.memSize);
      PutPrev(0, 0);
      PutUsed(0, 0);
      PutUsed(c.memSize, 1);
      PutNext(c.memSize, c.memSize);
      PutPrev(c.memSize, c.memSize);
      InitialValid(c);
    }

    // ---------------------------------------------------------------- plug_holes, mem_free

    // Only bytes of headers at the given offsets changed.
    twostate predicate OnlyHeadersChanged(starts: seq<nat>)
      reads this, ram
    {
      forall x: nat :: x < ram.Length && ram[x] != old(ram[x]) ==> InHeader(c, starts, x)
    }

    // No byte of live data changed.
    twostate predicate LiveDataKept(b: Blocks)
      requires b.WellFormed()
      reads this, ram
    {
      forall x: nat :: x < ram.Length && InLive(c, b, x) ==> ram[x] == old(ram[x])
    }

    // Unlink the block behind mem: mem takes over its next link, the block after it points back to mem.
    method Absorb(mem: nat, behind: nat, ghost b: Blocks, ghost b': Blocks, ghost k: nat)
      requires c.Valid() && Tiled(c, b) && ram.Length == c.memSize + c.header && HeadersAre(b)
      requires MergedHeaders(b, b', k) && mem == b.starts[k] && behind == b.starts[k + 1]
      modifies ram
      ensures HeadersAre(b') && OnlyHeadersChanged(b.starts)
    {
      hide HeaderAt;
      assert HeaderIs(b, k) && HeaderIs(b, k + 1);
      var after := HeaderAt(behind).next;
      PutNext(mem, after);
      if after != c.memSize {
        assert old(HeaderIs(b, k + 2));
        PutPrev(after, mem);
      }
      forall i | 0 <= i < |b'.used|
        ensures HeaderIs(b', i)
      {
        var j := if i <= k then i else i + 1;
        assert old(HeaderIs(b, j));
        assert j != k && j != k + 2 ==> HeaderAt(b.starts[j]) == old(HeaderAt(b.starts[j]));
        assert Spelled(b', i) == HeaderAt(b.starts[j]);
      }
    }

    // plug_holes, first half: from b, where block k was just freed, to b1.
    method PlugHoleForward(mem: nat, ghost b: Blocks, ghost b1: Blocks, ghost k: nat)
      requires c.Valid() && Tiled(c, b) && ram.Length == c.memSize + c.header && HeadersAre(b)
      requires k < |b.used| && mem == b.starts[k] && !b.used[k]
      requires if k + 1 < |b.used| && !b.used[k + 1] then MergedHeaders(b, b1, k) else b1 == b
      requires low <= k + 1 && lfree == b.starts[low]
      modifies this`lfree, this`low, ram
      ensures HeadersAre(b1) && OnlyHeadersChanged(b.starts)
      ensures low == ForwardLow(b, k, old(low)) && lfree == b.starts[low]
    {
      assert HeaderIs(b, k) && (k + 1 < |b.used| ==> HeaderIs(b, k + 1));
      var nmem := HeaderAt(mem).next;
      if mem != nmem && HeaderAt(nmem).used == 0 && nmem != c.memSize {
        if lfree == nmem {
          StartsCompare(c, b, low, k + 1);
          lfree, low := mem, k;
        }
        Absorb(mem, nmem, b, b1, k);
      }
    }

    // plug_holes, second half: from b1 to b2.
    method PlugHoleBackward(mem: nat, ghost b1: Blocks, ghost b2: Blocks, ghost k: nat)
      requires c.Valid() && Tiled(c, b1) && ram.Length == c.memSize + c.header && HeadersAre(b1)
      requires k < |b1.used| && mem == b1.starts[k] && !b1.used[k]
      requires if 0 < k && !b1.used[k - 1] then MergedHeaders(b1, b2, k - 1) else b2 == b1
      requires low <= |b1.used| && lfree == b1.starts[low]
      modifies this`lfree, ram
      ensures HeadersAre(b2) && OnlyHeadersChanged(b1.starts)
      ensures lfree == b1.starts[if low == k && 0 < k && !b1.used[k - 1] then k - 1 else low]
    {
      hide HeaderAt, InHeader;
      assert HeaderIs(b1, k) && (0 < k ==> HeaderIs(b1, k - 1));
      var pmem := HeaderAt(mem).prev;
      if pmem != mem && HeaderAt(pmem).used == 0 {
        if lfree == mem {
          StartsCompare(c, b1, low, k);
          lfree := pmem;
        }
        Absorb(pmem, mem, b1, b2, k - 1);
      }
    }

    // mem_link_valid
    function LinkValid(mem: nat): bool
      reads ram
    {
      var next, prev := HeaderAt(mem).next, HeaderAt(mem).prev;
      && next <= c.memSize
      && prev <= c.memSize
      && (prev == mem || HeaderAt(prev).next == mem)
      && (next == c.memSize || HeaderAt(next).prev == mem)
    }

    lemma BlockLinkValid(k: nat)
      requires Linked() && k < |blocks.used|
      ensures LinkValid(blocks.starts[k])
    {
      assert HeaderIs(blocks, k);
      assert 0 < k ==> HeaderIs(blocks, k - 1);
      assert k + 1 < |blocks.used| ==> HeaderIs(blocks, k + 1);
    }

    // Mark block k free or used.
    method SetUsed(mem: nat, v: bool, ghost b: Blocks, ghost k: nat)
      requires c.Valid() && Tiled(c, b) && ram.Length == c.memSize + c.header && HeadersAre(b)
      requires k < |b.used| && mem == b.starts[k]
      modifies ram
      ensures HeadersAre(Blocks(b.starts, b.used[k := v])) && OnlyHeadersChanged(b.starts)
    {
      PutUsed(mem, if v then 1 else 0);
      ghost var b' := Blocks(b.starts, b.used[k := v]);
      forall i | 0 <= i < |b.used|
        ensures HeaderIs(b', i)
      {
        assert old(HeaderIs(b, i));
      }
    }

    // mem_free behind its tests, on headers and lfree.
    method ReleaseHeaders(
        mem: nat, ghost k: nat, ghost b: Blocks, ghost b0: Blocks, ghost b1: Blocks, ghost b2: Blocks)
      requires ReleaseSteps(c, b, k, b0, b1, b2) && ram.Length == c.memSize + c.header && HeadersAre(b)
      requires mem == b.starts[k] && low <= |b.used| && lfree == b.starts[low]
      requires var l1 := ForwardLow(b0, k, if k < low then k else low);
               l1 <= |b1.used| && b1.starts[l1] == b0.starts[l1]
      modifies this`lfree, this`low, ram
      ensures HeadersAre(b2) && OnlyHeadersChanged(b.starts)
      ensures var l1 := ForwardLow(b0, k, if k < old(low) then k else old(low));
              lfree == b1.starts[if l1 == k && 0 < k && !b1.used[k - 1] then k - 1 else l1]
    {
      hide InHeader, HeaderAt, HeaderIs, Tiled, Coalesced, MergedHeaders, Spelled;
      StartsCompare(c, b, k, low);
      SetUsed(mem, false, b, k);
      if mem < lfree {
        lfree, low := mem, k;
      }
      PlugHoleForward(mem, b0, b1, k);
      assert mem == b1.starts[k];
      PlugHoleBackward(mem, b1, b2, k);
    }

    method ReleaseBlock(mem: nat, ghost k: nat)
      requires Linked() && k < |blocks.used| && blocks.used[k] && mem == blocks.starts[k]
      modifies this`lfree, this`low, this`blocks, ram
      ensures Linked() && (old(LfreeExact()) ==> LfreeExact())
      ensures LfreeExact() || lfree == old(lfree)
      ensures blocks == Release(old(blocks), k)
      ensures OnlyHeadersChanged(old(blocks).starts)
    {
      hide Tiled, Merged, Merge, InHeader, HeaderIs;
      ghost var b0, b1, b2 := ReleaseInSteps(c, blocks, k);
      ghost var low' := ReleaseLow(c, blocks, k, b0, b1, b2, low);
      ReleaseHeaders(mem, k, blocks, b0, b1, b2);
      blocks, low := b2, low';
    }

    // A pointer as given by the caller: an offset into ram, or NULL.
    ghost predicate NamesBlock(mem: nat)
      requires blocks.WellFormed()
      reads this
    {
      exists k :: 0 <= k < |blocks.used| && blocks.starts[k] == mem
    }

    // mem_free's tests that need no header: NULL, misaligned, outside the heap.
    predicate RefusedPointer(rmem: Option<nat>)
      requires 0 < c.align
    {
      || rmem.None?
      || rmem.value % c.align != 0
      || rmem.value < c.header
      || c.memSize < rmem.value + c.minSize
    }

    // The pointer is the start of a block, live or already freed, or what stands in front of it is
    // told from a live header by its flag or its links.
    ghost predicate FreeIsGuarded(mem: nat)
      requires blocks.WellFormed()
      reads this, ram
    {
      NamesBlock(mem) || (!IsLive(blocks, mem) && (HeaderAt(mem).used == 0 || !LinkValid(mem)))
    }

    // mem_free: a live block is released; a double free or any other guarded call changes nothing.
    method Free(rmem: Option<nat>)
      requires Linked()
      requires RefusedPointer(rmem) || FreeIsGuarded(rmem.value - c.header)
      modifies this`lfree, this`low, this`blocks, this`freeCount, ram
      ensures Linked() && (old(LfreeExact()) ==> LfreeExact())
      ensures LfreeExact() || lfree == old(lfree)
      ensures RefusedPointer(rmem) ==> blocks == old(blocks)
      ensures !RefusedPointer(rmem) ==>
                var call := FreeCall(rmem.value - c.header);
                blocks == Apply(c, old(blocks), call) && Called(c, old(blocks), call, blocks)
      ensures old(freeCount) ==> freeCount
      ensures !freeCount ==> blocks == old(blocks) && lfree == old(lfree) && low == old(low)
      ensures LiveDataKept(blocks)
    {
      hide Tiled, Coalesced, HeadersAre, HeaderAt, LinkValid, InLive, InHeader, Release, Called;
      if RefusedPointer(rmem) {
        return;
      }
      ApplyCalled(c, blocks, FreeCall(rmem.value - c.header));
      var mem := rmem.value - c.header;
      ghost var k := LiveIndex(blocks, mem, 0);
      if HeaderAt(mem).used == 0 || !LinkValid(mem) {
        assert k == |blocks.used| by { LiveHeader(mem); }
        return;
      }
      LiveHeader(mem);
      ReleasedDataIsNotHeader(c, blocks, k);
      ReleaseBlock(mem, k);
      freeCount := true;
    }

    // A header is that of a live block exactly when its flag is set and its links are valid, if it is
    // the header of a block at all.
    lemma LiveHeader(mem: nat)
      requires Linked() && FreeIsGuarded(mem)
      ensures LiveIndex(blocks, mem, 0) < |blocks.used| <==> HeaderAt(mem).used != 0 && LinkValid(mem)
    {
      if NamesBlock(mem) {
        var k :| 0 <= k < |blocks.used| && blocks.starts[k] == mem;
        assert HeaderIs(blocks, k);
        BlockLinkValid(k);
        if blocks.used[k] {
          LiveIndexIs(c, blocks, k);
        } else if LiveIndex(blocks, mem, 0) < |blocks.used| {
          StartsCompare(c, blocks, k, LiveIndex(blocks, mem, 0));
        }
      }
    }

    // ---------------------------------------------------------------- mem_trim

    // Write the header of a free block at ptr2 and link it between the blocks at ptr and next.
    method PlaceFree(ptr: nat, ptr2: nat, next: nat)
      requires ram.Length == c.memSize + c.header && HEADER_BYTES <= c.header
      requires ptr + c.header <= ptr2 && ptr2 + c.header <= next <= c.memSize < MEM_SIZE_T_RANGE
      modifies ram
      ensures HeaderAt(ptr2) == Header(next, ptr, 0)
      ensures HeaderAt(ptr) == old(HeaderAt(ptr)).(next := ptr2)
      ensures HeaderAt(next) == if next == c.memSize then old(HeaderAt(next)) else old(HeaderAt(next)).(prev := ptr2)
      ensures forall q: nat {:trigger HeaderAt(q)} :: q + c.header <= ptr || next + c.header <= q ==>
                HeaderAt(q) == old(HeaderAt(q))
      ensures forall x: nat :: x < ram.Length && ram[x] != old(ram[x]) ==>
                ptr <= x < ptr + c.header || ptr2 <= x < ptr2 + c.header || next <= x < next + c.header
    {
      PutUsed(ptr2, 0);
      PutNext(ptr2, next);
      PutPrev(ptr2, ptr);
      PutNext(ptr, ptr2);
      if next != c.memSize {
        PutPrev(next, ptr2);
      }
    }

    method SplitBlock(ptr: nat, ptr2: nat, ghost k: nat)
      requires c.Valid() && Tiled(c, blocks) && ram.Length == c.memSize + c.header && HeadersAre(blocks)
      requires k < |blocks.used| && ptr == blocks.starts[k]
      requires ptr + c.header + c.minSize <= ptr2 && ptr2 + c.header + c.minSize <= blocks.starts[k + 1]
      modifies this`blocks, ram
      ensures blocks == Split(old(blocks), k, ptr2)
      ensures HeadersAre(blocks) && OnlyHeadersChanged(blocks.starts)
    {
      hide HeaderAt;
      ghost var b := blocks;
      assert HeaderIs(b, k);
      PlaceFree(ptr, ptr2, HeaderAt(ptr).next);
      blocks := Split(b, k, ptr2);
      forall i | 0 <= i <= |b.used|
        ensures HeaderIs(blocks, i)
      {
        SplitSpelled(b, k, ptr2, i);
        var j := if i <= k then i else i - 1;
        assert i != k + 1 ==> old(HeaderIs(b, j));
        assert j != k && j != k + 1 ==> HeaderAt(b.starts[j]) == old(HeaderAt(b.starts[j]));
      }
      assert blocks.starts[k] == ptr && blocks.starts[k + 1] == ptr2 && blocks.starts[k + 2] == b.starts[k + 1];
    }

    method MoveBlock(ptr: nat, ptr2: nat, ghost k: nat)
      requires c.Valid() && Tiled(c, blocks) && ram.Length == c.memSize + c.header && HeadersAre(blocks)
      requires k + 1 < |blocks.used| && ptr == blocks.starts[k] && !blocks.used[k + 1]
      requires ptr + c.header + c.minSize <= ptr2 <= blocks.starts[k + 1]
      modifies this`blocks, ram
      ensures blocks == Move(old(blocks), k, ptr2)
      ensures HeadersAre(blocks) && OnlyHeadersChanged(blocks.starts)
    {
      hide HeaderAt;
      ghost var b := blocks;
      assert HeaderIs(b, k) && HeaderIs(b, k + 1);
      PlaceFree(ptr, ptr2, HeaderAt(HeaderAt(ptr).next).next);
      blocks := Move(b, k, ptr2);
      forall i | 0 <= i < |b.used|
        ensures HeaderIs(blocks, i)
      {
        MoveSpelled(b, k, ptr2, i);
        assert old(HeaderIs(b, i));
      }
      assert blocks.starts[k] == ptr && blocks.starts[k + 1] == ptr2 && blocks.starts[k + 2] == b.starts[k + 2];
    }

    // mem_trim, next block unused: the free block behind block k is moved down.
    method ShrinkIntoFree(ptr: nat, ptr2: nat, ghost k: nat)
      requires Linked() && k + 1 < |blocks.used| && blocks.used[k] && !blocks.used[k + 1] && ptr == blocks.starts[k]
      requires ptr + c.header + c.minSize <= ptr2 < blocks.starts[k + 1]
      requires Valid(c, Move(blocks, k, ptr2))
      modifies this`lfree, this`blocks, ram
      ensures Linked() && (old(LfreeExact()) ==> LfreeExact())
      ensures LfreeExact() || lfree == old(lfree)
      ensures blocks == Move(old(blocks), k, ptr2) && OnlyHeadersChanged(blocks.starts)
    {
      assert HeaderIs(blocks, k);
      StartsCompare(c, blocks, k + 1, low);
      MoveStarts(blocks, k, ptr2);
      hide HeadersAre, HeaderAt, Tiled, Coalesced, InHeader, Move;
      if lfree == HeaderAt(ptr).next {
        lfree := ptr2;
      }
      MoveBlock(ptr, ptr2, k);
    }

    // mem_trim, next block used: the end of block k becomes a free block.
    method ShrinkBySplit(ptr: nat, ptr2: nat, ghost k: nat)
      requires Linked() && k < |blocks.used| && blocks.used[k] && ptr == blocks.starts[k]
      requires ptr + c.header + c.minSize <= ptr2 && ptr2 + c.header + c.minSize <= blocks.starts[k + 1]
      requires Valid(c, Split(blocks, k, ptr2))
      modifies this`lfree, this`low, this`blocks, ram
      ensures Linked() && (old(LfreeExact()) ==> LfreeExact())
      ensures LfreeExact() || lfree == old(lfree)
      ensures blocks == Split(old(blocks), k, ptr2) && OnlyHeadersChanged(blocks.starts)
    {
      SplitStart(c, blocks, k, ptr2, low);
      if ptr2 < lfree {
        lfree, low := ptr2, k + 1;
      }
      SplitBlock(ptr, ptr2, k);
    }

    // mem_trim behind its tests.
    method ShrinkBlock(ptr: nat, size: nat, ghost k: nat) returns (asserted: bool)
      requires Linked() && k < |blocks.used| && blocks.used[k] && ptr == blocks.starts[k]
      requires c.minSize <= size < DataSize(c, blocks, k)
      modifies this`lfree, this`low, this`blocks, ram
      ensures Linked() && (old(LfreeExact()) ==> LfreeExact())
      ensures LfreeExact() || lfree == old(lfree)
      ensures blocks == HeapBlocks.Trim(c, old(blocks), k, size)
      ensures OnlyHeadersChanged(blocks.starts)
      ensures asserted <==> TrimAsserts(c, old(blocks), k, size)
    {
      hide HeaderAt, InHeader, Move, Split, Coalesced;
      asserted := true;
      TrimValid(c, blocks, k, size);
      assert HeaderIs(blocks, k) && (k + 1 < |blocks.used| ==> HeaderIs(blocks, k + 1));
      var mem2 := HeaderAt(ptr).next;
      var ptr2 := ptr + c.header + size;
      if HeaderAt(mem2).used == 0 {
        ShrinkIntoFree(ptr, ptr2, k);
      } else if size + c.header + c.minSize <= mem2 - ptr - c.header {
        StartsCompare(c, blocks, k + 1, |blocks.used|);
        asserted := mem2 != c.memSize;
        ShrinkBySplit(ptr, ptr2, k);
      }
    }

    // mem_trim; asserted tells whether every LWIP_ASSERT on the way held.
    method Trim(rmem: nat, newSize: MemSize) returns (r: Option<nat>, asserted: bool)
      requires Linked() && c.header <= rmem && IsLive(blocks, rmem - c.header)
      modifies this`lfree, this`low, this`blocks, this`freeCount, ram
      ensures Linked() && (old(LfreeExact()) ==> LfreeExact())
      ensures LfreeExact() || lfree == old(lfree)
      ensures var call := TrimCall(rmem - c.header, newSize);
              blocks == Apply(c, old(blocks), call) && Called(c, old(blocks), call, blocks)
      ensures old(freeCount) ==> freeCount
      ensures !freeCount ==> blocks == old(blocks) && lfree == old(lfree) && low == old(low)
      ensures LiveDataKept(blocks)
      ensures var k := LiveIndex(old(blocks), rmem - c.header, 0);
              match RoundSize(c, newSize)
              case Invalid => r.None? && asserted
              case Rounded(size) =>
                && r == (if size <= DataSize(c, old(blocks), k) then Some(rmem) else None)
                && (asserted <==> TrimAsserts(c, old(blocks), k, size))
    {
      hide Tiled, InHeader, InLive, HeapBlocks.Trim, Release, AlignUp, Called;
      ApplyCalled(c, blocks, TrimCall(rmem - c.header, newSize));
      r, asserted := None, true;
      match RoundSize(c, newSize) {
        case Invalid =>
        case Rounded(newsize) =>
          RoundSizeExact(c, newSize);
          var ptr := rmem - c.header;
          ghost var k := LiveIndex(blocks, ptr, 0);
          assert HeaderIs(blocks, k);
          var size := HeaderAt(ptr).next - ptr - c.header;
          asserted := newsize <= size;
          if newsize >= size {
            TrimOnlyShrinks(c, blocks, k, newsize);
          }
          if newsize <= size {
            r := Some(rmem);
          }
          if newsize < size {
            asserted := ShrinkBlock(ptr, newsize, k);
            freeCount := true;
            DataIsNeverHeader(c, blocks);
          }
      }
    }

    // ---------------------------------------------------------------- other contexts

    ghost predicate AlignedHeap()
      requires blocks.WellFormed()
      reads this
    {
      0 < c.align && c.Aligned() && AllAligned(c, blocks)
    }

    method HasLiveBlock(p: nat) returns (r: bool)
      requires Linked()
      ensures r <==> LiveIndex(blocks, p, 0) < |blocks.used|
    {
      var q := 0;
      ghost var i := 0;
      while q < c.memSize
        invariant i <= |blocks.used| && q == blocks.starts[i]
        invariant forall j :: 0 <= j < i ==> !(blocks.starts[j] == p && blocks.used[j])
        decreases |blocks.used| - i
      {
        assert HeaderIs(blocks, i);
        if q == p && HeaderAt(q).used != 0 {
          return true;
        }
        q, i := HeaderAt(q).next, i + 1;
      }
      r := false;
    }

    // One call by another context, if the block it names is live.
    method Perform(call: Call)
      requires Linked() && AlignedHeap()
      modifies this`lfree, this`low, this`blocks, this`freeCount, ram
      ensures Linked() && AlignedHeap() && (old(LfreeExact()) ==> LfreeExact())
      ensures LfreeExact() || lfree == old(lfree)
      ensures blocks == Apply(c, old(blocks), call) && Called(c, old(blocks), call, blocks)
      ensures LiveDataKept(blocks)
      ensures old(freeCount) ==> freeCount
      ensures !freeCount ==> blocks == old(blocks) && lfree == old(lfree) && low == old(low)
    {
      hide Tiled, Coalesced, HeadersAre, AllAligned, HeaderAt, LinkValid, InLive, Release, HeapBlocks.Trim, RoundSize;
      hide Called;
      ApplyCalled(c, blocks, call);
      var live := HasLiveBlock(call.mem);
      if live {
        ApplyAligned(c, blocks, call);
        LivePointerAccepted(call.mem);
        match call {
          case FreeCall(_) => Free(Some(call.mem + c.header));
          case TrimCall(_, newSize) => var _, _ := Trim(call.mem + c.header, newSize);
        }
      }
    }

    // mem_free refuses no live block.
    lemma LivePointerAccepted(mem: nat)
      requires Linked() && AlignedHeap() && LiveIndex(blocks, mem, 0) < |blocks.used|
      ensures !RefusedPointer(Some(mem + c.header)) && NamesBlock(mem) && IsLive(blocks, mem)
    {
      var k := LiveIndex(blocks, mem, 0);
      assert blocks.starts[k] in blocks.starts && blocks.starts[k + 1] <= c.memSize;
      AlignedSum(c.align, mem, c.header);
    }

    // An unprotected window of mem_malloc.
    method Window(calls: seq<Call>, busy: Option<nat>)
      requires Linked() && AlignedHeap()
      modifies this`lfree, this`low, this`blocks, this`freeCount, ram
      ensures Linked() && AlignedHeap() && (old(LfreeExact()) ==> LfreeExact())
      ensures LfreeExact() || lfree == old(lfree)
      ensures blocks == RunCalls(c, old(blocks), calls, busy)
      ensures LiveDataKept(blocks)
      ensures old(freeCount) ==> freeCount
      ensures !freeCount ==> blocks == old(blocks) && lfree == old(lfree) && low == old(low)
      ensures freeCount ==> old(freeCount) || calls != []
    {
      hide Tiled, Coalesced, HeadersAre, AllAligned, InLive, Apply;
      for n := 0 to |calls|
        invariant Linked() && AlignedHeap() && (old(LfreeExact()) ==> LfreeExact())
        invariant LfreeExact() || lfree == old(lfree)
        invariant blocks == RunCalls(c, old(blocks), calls[..n], busy)
        invariant LiveDataKept(blocks)
        invariant old(freeCount) ==> freeCount
        invariant !freeCount ==> blocks == old(blocks) && lfree == old(lfree) && low == old(low)
        invariant freeCount ==> old(freeCount) || 0 < n
      {
        assert calls[..n + 1][..n] == calls[..n];
        if busy != Some(calls[n].mem) {
          ghost var b := blocks;
          Perform(calls[n]);
          forall x: nat | InLive(c, blocks, x)
            ensures InLive(c, b, x)
          {
            ApplyShrinksLive(c, b, calls[n], x);
          }
        }
      }
      assert calls[..|calls|] == calls;
    }

    // ---------------------------------------------------------------- mem_malloc

    lemma ReadHeader(i: nat)
      requires Linked() && i <= |blocks.used|
      ensures blocks.starts[i] <= c.memSize && (i < |blocks.used| <==> blocks.starts[i] < c.memSize)
      ensures HeaderAt(blocks.starts[i]) ==
              if i < |blocks.used| then Spelled(blocks, i) else Header(c.memSize, c.memSize, 1)
    {
      LastIsEnd(c, blocks, i);
      assert i < |blocks.used| ==> HeaderIs(blocks, i);
    }

    // One pass over the list from lfree, with a window before each block is looked at.
    method Scan(size: nat, sched: seq<seq<Call>>, w: nat) returns (result: ScanResult, w': nat)
      requires Linked() && AlignedHeap() && size <= c.memSize
      modifies this`lfree, this`low, this`blocks, this`freeCount, ram
      ensures Linked() && AlignedHeap() && (old(LfreeExact()) ==> LfreeExact())
      ensures w <= w' && blocks == RunWindows(c, old(blocks), sched, w, w', None)
      ensures LiveDataKept(blocks)
      ensures var k := FirstFit(c, blocks, size, 0);
              match result
              case Found(ptr) => k < |blocks.used| && ptr == blocks.starts[k]
              case Exhausted => k == |blocks.used|
              case Interrupted => w < w' <= |sched|
    {
      hide Tiled, Coalesced, AllAligned, InLive, RunCalls, HeadersAre, HeaderAt;
      w' := w;
      var ptr := lfree;
      ghost var i := low;
      while ptr < c.memSize - size
        invariant Linked() && AlignedHeap() && (old(LfreeExact()) ==> LfreeExact())
        invariant w <= w' && blocks == old(blocks) == RunWindows(c, old(blocks), sched, w, w', None)
        invariant LiveDataKept(blocks)
        invariant i <= |blocks.used| && ptr == blocks.starts[i]
        invariant forall j :: 0 <= j < i ==> !Fits(c, blocks, j, size)
        decreases |blocks.used| - i
      {
        freeCount := false;
        Window(CallsAt(sched, w'), None);
        w' := w' + 1;
        if freeCount {
          RunCallsShrinkAllLive(c, old(blocks), CallsAt(sched, w' - 1), None);
          return Interrupted, w';
        }
        ReadHeader(i);
        if HeaderAt(ptr).used == 0 && HeaderAt(ptr).next - (ptr + c.header) >= size {
          FirstFitIs(c, blocks, size, i);
          return Found(ptr), w';
        }
        ptr, i := HeaderAt(ptr).next, i + 1;
      }
      NoRoomAbove(c, blocks, size, i);
      FirstFitIs(c, blocks, size, |blocks.used|);
      result := Exhausted;
    }

    // mem_malloc takes the block it found: split off the rest if a header and MIN_SIZE fit.
    method Commit(ptr: nat, size: nat, ghost k: nat)
      requires Linked() && k < |blocks.used| && ptr == blocks.starts[k]
      requires Fits(c, blocks, k, size) && c.minSize <= size
      modifies this`blocks, ram
      ensures Linked() && (old(LfreeExact()) && low != k ==> LfreeExact())
      ensures blocks == Alloc(c, old(blocks), k, size)
      ensures LiveDataKept(blocks)
    {
      hide HeaderAt, Tiled, Coalesced, InHeader, InLive, Split;
      ghost var b, b1 := blocks, Blocks(blocks.starts, blocks.used[k := true]);
      AllocValid(c, b, k, size);
      UsedFlagTiled(c, b, k, true);
      assert HeaderIs(b, k);
      var room := HeaderAt(ptr).next - (ptr + c.header);
      SetUsed(ptr, true, b, k);
      blocks := b1;
      if room >= size + c.header + c.minSize {
        var ptr2 := ptr + c.header + size;
        SplitStart(c, b1, k, ptr2, low);
        SplitIsSplit(b1, k, ptr2);
        SplitKeepsHeaders(c, b1, Split(b1, k, ptr2), k, ptr2);
        SplitBlock(ptr, ptr2, k);
      }
      assert blocks == Alloc(c, b, k, size);
      DataIsNeverHeader(c, blocks);
    }

    // One walk from mem to the next free block; lfree is set unless another context disturbed the walk.
    method FindNextFree(mem: nat, sched: seq<seq<Call>>, w: nat, ghost e: nat) returns (interrupted: bool, w': nat)
      requires Linked() && AlignedHeap() && IsBlock(blocks, mem, e) && lfree == mem
      modifies this`lfree, this`low, this`blocks, this`freeCount, ram
      ensures Linked() && AlignedHeap()
      ensures w <= w' && blocks == RunWindows(c, old(blocks), sched, w, w', Some(mem))
      ensures IsBlock(blocks, mem, e)
      ensures LiveDataKept(blocks)
      ensures LfreeExact() || (interrupted && lfree == mem)
      ensures interrupted ==> w < w' <= |sched|
    {
      hide Tiled, Coalesced, AllAligned, InLive, RunCalls, HeadersAre, HeaderAt, IsBlock;
      interrupted, w' := false, w;
      var cur := lfree;
      ghost var i := low;
      while HeaderAt(cur).used != 0 && cur != c.memSize
        invariant Linked() && AlignedHeap() && lfree == mem
        invariant w <= w' && blocks == old(blocks) == RunWindows(c, old(blocks), sched, w, w', Some(mem))
        invariant LiveDataKept(blocks)
        invariant i <= |blocks.used| && cur == blocks.starts[i]
        invariant forall j :: 0 <= j < i ==> blocks.used[j]
        decreases |blocks.used| - i
      {
        ReadHeader(i);
        assert blocks.used[i];
        freeCount := false;
        Window(CallsAt(sched, w'), Some(mem));
        w' := w' + 1;
        if freeCount {
          RunWindowsKeepBusy(c, old(blocks), sched, w, w', mem, e);
          RunCallsShrinkAllLive(c, old(blocks), CallsAt(sched, w' - 1), Some(mem));
          return true, w';
        }
        ReadHeader(i);
        cur, i := HeaderAt(cur).next, i + 1;
      }
      ReadHeader(i);
      lfree, low := cur, i;
    }

    // Move lfree off the block just taken, with a window before each step and a restart after a disturbance.
    method AdjustLfree(mem: nat, sched: seq<seq<Call>>, w: nat, ghost e: nat) returns (w': nat)
      requires Linked() && AlignedHeap() && IsBlock(blocks, mem, e)
      requires LfreeExact() || lfree == mem
      modifies this`lfree, this`low, this`blocks, this`freeCount, ram
      ensures Linked() && AlignedHeap() && LfreeExact()
      ensures w <= w' && blocks == RunWindows(c, old(blocks), sched, w, w', Some(mem))
      ensures IsBlock(blocks, mem, e)
      ensures LiveDataKept(blocks)
    {
      hide Tiled, Coalesced, AllAligned, InLive, RunCalls;
      w' := w;
      var done := false;
      while !done
        invariant Linked() && AlignedHeap() && (if done then LfreeExact() else LfreeExact() || lfree == mem)
        invariant w <= w' && blocks == RunWindows(c, old(blocks), sched, w, w', Some(mem))
        invariant IsBlock(blocks, mem, e)
        invariant LiveDataKept(blocks)
        decreases if w' < |sched| then |sched| - w' else 0, !done
      {
        var interrupted := false;
        if mem == lfree {
          ghost var before, b := w', blocks;
          interrupted, w' := FindNextFree(mem, sched, w', e);
          RunWindowsCompose(c, old(blocks), sched, w, before, w', Some(mem));
          RunWindowsShrinkAllLive(c, b, sched, before, w', Some(mem));
        }
        done := !interrupted;
      }
    }

    // mem_malloc from the moment a block is found.
    method TakeFound(ptr: nat, size: nat, sched: seq<seq<Call>>, w: nat) returns (w': nat)
      requires Linked() && AlignedHeap() && LfreeExact()
      requires c.minSize <= size && size % c.align == 0
      requires var k := FirstFit(c, blocks, size, 0); k < |blocks.used| && ptr == blocks.starts[k]
      modifies this`lfree, this`low, this`blocks, this`freeCount, ram
      ensures Linked() && AlignedHeap() && LfreeExact()
      ensures w <= w'
      ensures var k := FirstFit(c, old(blocks), size, 0);
        blocks == RunWindows(c, Alloc(c, old(blocks), k, size), sched, w, w', Some(ptr))
      ensures forall x: nat :: InLive(c, blocks, x) && !InBlock(blocks, ptr, x) ==> InLive(c, old(blocks), x)
      ensures LiveDataKept(blocks)
    {
      hide Tiled, Coalesced, AllAligned, InLive, InBlock, RunWindows, HeadersAre, Alloc;
      ghost var b, k := blocks, FirstFit(c, blocks, size, 0);
      AllocTakes(c, b, k, size);
      AllocOtherLive(c, b, k, size);
      AllocAligned(c, b, k, size);
      Commit(ptr, size, k);
      ghost var b1, e := blocks, blocks.starts[k + 1];
      w' := AdjustLfree(ptr, sched, w, e);
      RunWindowsShrinkAllLive(c, b1, sched, w, w', Some(ptr));
      BlockHolds(blocks, ptr, e);
    }

    // mem_malloc.  sched lists what other contexts do in each window; [] is the build without
    // LWIP_ALLOW_MEM_FREE_FROM_OTHER_CONTEXT.  commit is the heap when the search ends, after
    // w1 windows.
    method Malloc(sizeIn: MemSize, sched: seq<seq<Call>>)
      returns (r: Option<nat>, ghost commit: Blocks, ghost w1: nat, ghost w2: nat)
      requires Linked() && AlignedHeap() && LfreeExact()
      modifies this`lfree, this`low, this`blocks, this`freeCount, ram
      ensures Linked() && AlignedHeap() && LfreeExact()
      ensures w1 <= w2 && commit == RunWindows(c, old(blocks), sched, 0, w1, None)
      ensures MallocStep(c, old(blocks), sizeIn, sched, w1, w2, r, blocks)
      ensures Mallocs(c, old(blocks), sizeIn, sched, w1, w2, r, blocks)
      ensures forall x: nat :: x < ram.Length && InLive(c, blocks, x) ==>
                ram[x] == old(ram[x]) || (r.Some? && InBlock(blocks, r.value - c.header, x))
    {
      hide Tiled, Coalesced, AllAligned, InLive, RunWindows, Mallocs;
      r, commit, w1, w2 := None, blocks, 0, 0;
      NoWindows(c, blocks, sched, 0, None);
      if sizeIn == 0 {
        StepMallocs(c, old(blocks), sizeIn, sched, w1, w2, r, blocks);
        return;
      }
      match RoundSize(c, sizeIn) {
        case Invalid =>
        case Rounded(size) =>
          RoundSizeExact(c, sizeIn);
          RoundSizeAligned(c, sizeIn);
          var w := 0;
          var result := Interrupted;
          while result.Interrupted?
            invariant Linked() && AlignedHeap() && LfreeExact()
            invariant blocks == RunWindows(c, old(blocks), sched, 0, w, None)
            invariant LiveDataKept(blocks)
            invariant var k := FirstFit(c, blocks, size, 0);
                      match result
                      case Found(ptr) => k < |blocks.used| && ptr == blocks.starts[k]
                      case Exhausted => k == |blocks.used|
                      case Interrupted => true
            decreases if w < |sched| then |sched| - w else 0, result.Interrupted?
          {
            ghost var before, b := w, blocks;
            result, w := Scan(size, sched, w);
            RunWindowsCompose(c, old(blocks), sched, 0, before, w, None);
            RunWindowsShrinkAllLive(c, b, sched, before, w, None);
          }
          commit, w1, w2 := blocks, w, w;
          if result.Found? {
            w2, r := w, Some(result.ptr + c.header);
            w2 := TakeFound(result.ptr, size, sched, w);
          }
      }
      StepMallocs(c, old(blocks), sizeIn, sched, w1, w2, r, blocks);
    }

    // mem_malloc while no other context calls: exact first fit.  The result is the data of the lowest
    // free block that holds the aligned size, aligned, in the heap and apart from all live data, which
    // stays as it is; NULL comes back exactly if the size is invalid or no block fits.
    method MallocAlone(sizeIn: MemSize) returns (r: Option<nat>)
      requires Linked() && AlignedHeap() && LfreeExact()
      modifies this`lfree, this`low, this`blocks, this`freeCount, ram
      ensures Linked() && AlignedHeap() && LfreeExact()
      ensures var rounded := RoundSize(c, sizeIn);
              var k := if rounded.Rounded? then FirstFit(c, old(blocks), rounded.size, 0) else 0;
              if sizeIn == 0 || rounded.Invalid? || k == |old(blocks).used| then r.None? && blocks == old(blocks)
              else
                && r == Some(old(blocks).starts[k] + c.header)
                && blocks == Alloc(c, old(blocks), k, rounded.size)
                && sizeIn <= rounded.size && r.value % c.align == 0 && r.value + rounded.size <= c.memSize
                && forall x: nat :: r.value <= x < r.value + rounded.size ==> !InLive(c, old(blocks), x)
      ensures Malloced(c, old(blocks), sizeIn, r, blocks)
      ensures forall x: nat :: x < ram.Length && InLive(c, old(blocks), x) ==>
                InLive(c, blocks, x) && ram[x] == old(ram[x])
    {
      hide Tiled, Coalesced, AllAligned, InLive, RunWindows, HeadersAre, Alloc, Malloced, Mallocs;
      if 0 < sizeIn && RoundSize(c, sizeIn).Rounded? {
        FitMalloced(c, blocks, sizeIn);
      } else {
        InvalidMalloced(c, blocks, sizeIn);
      }
      ghost var commit, w1, w2;
      r, commit, w1, w2 := Malloc(sizeIn, []);
      QuietWindows(c, old(blocks), 0, w1, None);
      if r.Some? {
        ghost var size, p := RoundSize(c, sizeIn).size, r.value - c.header;
        ghost var k := FirstFit(c, old(blocks), size, 0);
        RoundSizeExact(c, sizeIn);
        AllocTakes(c, old(blocks), k, size);
        AllocatedPointerAligned(c, old(blocks), k);
        QuietWindows(c, Alloc(c, old(blocks), k, size), w1, w2, Some(p));
        ghost var e := blocks.starts[k + 1];
        assert Linked();
        forall x: nat | x < ram.Length && InLive(c, old(blocks), x)
          ensures InLive(c, blocks, x) && !InBlock(blocks, p, x)
        {
          AllocKeepsLive(c, old(blocks), k, size, x);
          OnlyBlockAt(c, blocks, p, e, x);
        }
      }
    }

    // ---------------------------------------------------------------- mem_sanity

    // The next links lead from block to block up to the end marker; the rest of the headers may be anything.
    ghost predicate Leads(b: Blocks)
      reads this, ram
    {
      && c.Valid() && Tiled(c, b) && 0 < |b.used| && ram.Length == c.memSize + c.header
      && forall k :: 0 <= k < |b.used| ==> HeaderAt(b.starts[k]).next == b.starts[k + 1]
    }

    // What mem_sanity finds right with block k.
    ghost predicate SaneBlock(b: Blocks, k: nat)
      requires b.WellFormed() && 0 < k < |b.used| && 0 < c.align
      reads this, ram
    {
      var h := HeaderAt(b.starts[k]);
      && b.starts[k] % c.align == 0 && h.used <= 1 && (HeaderAt(b.starts[k - 1]).used == 0 ==> h.used == 1)
      && h.prev <= c.memSize && (h.prev == b.starts[k] || HeaderAt(h.prev).next == b.starts[k])
      && (k + 1 < |b.used| ==> HeaderAt(b.starts[k + 1]).prev == b.starts[k])
    }

    // Block k is aligned and linked back to the block before, its flag is a flag, and the two are not both free.
    // Of the second block, the link back leads to the block itself, or to where some header leads to the block.
    ghost predicate Right(b: Blocks, k: nat)
      requires b.WellFormed() && 0 < k < |b.used| && 0 < c.align
      reads this, ram
    {
      var h := HeaderAt(b.starts[k]);
      && b.starts[k] % c.align == 0 && h.used <= 1 && (HeaderAt(b.starts[k - 1]).used == 1 || h.used == 1)
      && if 1 < k then h.prev == b.starts[k - 1]
         else h.prev <= c.memSize && (h.prev == b.starts[k] || HeaderAt(h.prev).next == b.starts[k])
    }

    // All blocks are right, and so is the end marker.
    ghost predicate Sane(b: Blocks)
      requires b.WellFormed() && 0 < |b.used| && 0 < c.align
      reads this, ram
    {
      && HeaderAt(0).used <= 1 && HeaderAt(0).prev == 0
      && (forall k :: 0 < k < |b.used| ==> Right(b, k))
      && HeaderAt(c.memSize) == Header(c.memSize, c.memSize, 1)
    }

    // What mem_sanity has found right with the first n blocks.
    ghost predicate SaneUpTo(b: Blocks, n: nat)
      requires b.WellFormed() && n <= |b.used| && 0 < c.align
      reads this, ram
    {
      HeaderAt(0).used <= 1 && HeaderAt(0).prev == 0 && forall k :: 0 < k < n ==> SaneBlock(b, k)
    }

    lemma SaneNext(b: Blocks, n: nat)
      requires b.WellFormed() && 0 < n < |b.used| && 0 < c.align
      ensures SaneUpTo(b, n + 1) <==> SaneUpTo(b, n) && SaneBlock(b, n)
    {
      hide SaneBlock, HeaderAt;
    }

    lemma SaneFirst(b: Blocks)
      requires b.WellFormed() && 0 < |b.used| && 0 < c.align
      ensures SaneUpTo(b, 1) <==> HeaderAt(0).used <= 1 && HeaderAt(0).prev == 0
    {
    }

    lemma SaneRight(b: Blocks, k: nat)
      requires Leads(b) && 0 < k < |b.used| && SaneBlock(b, k) && (1 < k ==> SaneBlock(b, k - 1))
      requires HeaderAt(b.starts[k - 1]).used <= 1
      ensures Right(b, k)
    {
    }

    lemma RightSane(b: Blocks, k: nat)
      requires Leads(b) && 0 < k < |b.used| && Right(b, k) && (k + 1 < |b.used| ==> Right(b, k + 1))
      ensures SaneBlock(b, k)
    {
      assert b.starts[k - 1] < b.starts[|b.used|];
    }

    lemma Flags(b: Blocks, k: nat)
      requires Leads(b) && k < |b.used| && HeaderAt(0).used <= 1
      requires forall j :: 0 < j < |b.used| ==> SaneBlock(b, j)
      ensures HeaderAt(b.starts[k]).used <= 1
    {
      if 0 < k {
        assert SaneBlock(b, k);
      }
    }

    lemma SaneIs(b: Blocks)
      requires Leads(b) && b.WellFormed() && 0 < c.align
      ensures Sane(b) <==> SaneUpTo(b, |b.used|) && HeaderAt(c.memSize) == Header(c.memSize, c.memSize, 1)
    {
      hide SaneBlock, Right, HeaderAt, Leads;
      if HeaderAt(0).used <= 1 && forall k :: 0 < k < |b.used| ==> SaneBlock(b, k) {
        forall k | 0 < k < |b.used| ensures Right(b, k) {
          Flags(b, k - 1);
          SaneRight(b, k);
        }
      }
      if forall k :: 0 < k < |b.used| ==> Right(b, k) {
        forall k | 0 < k < |b.used| ensures SaneBlock(b, k) {
          RightSane(b, k);
        }
      }
    }

    // A heap whose headers are right is sane.
    lemma LinkedIsSane()
      requires Linked() && AlignedHeap()
      ensures Leads(blocks) && Sane(blocks)
    {
      hide Tiled, Coalesced, AllAligned, HeaderIs, Right, HeaderAt, Spelled;
      Leading(blocks);
      forall k | 0 < k < |blocks.used| ensures Right(blocks, k) {
        BlockRight(k);
      }
    }

    lemma BlockRight(k: nat)
      requires Linked() && AlignedHeap() && 0 < k < |blocks.used|
      ensures Right(blocks, k)
    {
      hide Tiled, HeaderAt;
      assert HeaderIs(blocks, k) && HeaderIs(blocks, k - 1) && blocks.starts[k] in blocks.starts;
      LastIsEnd(c, blocks, k - 1);
      Neighbours(blocks, k);
    }

    lemma Leading(b: Blocks)
      requires Linked() && b == blocks
      ensures Leads(b) && HeaderAt(0).used <= 1 && HeaderAt(0).prev == 0
    {
      assert HeaderIs(b, 0);
      hide Coalesced;
      forall k | 0 <= k < |b.used| ensures HeaderAt(b.starts[k]).next == b.starts[k + 1] {
        assert HeaderIs(b, k);
      }
    }

    // mem_sanity: ok tells whether all its asserts hold, for a heap whose headers may have been overwritten, but for
    // the next links.
    method Sanity(ghost b: Blocks) returns (ok: bool)
      requires Leads(b)
      ensures ok <==> Sane(b)
    {
      hide Sane, SaneBlock, SaneUpTo, HeaderAt, Tiled;
      Positions(b, 0);
      SaneIs(b);
      SaneFirst(b);
      var mem, lastUsed := 0, HeaderAt(0).used;
      ok := lastUsed <= 1 && HeaderAt(0).prev == 0 && HeaderAt(0).next <= c.memSize;
      mem := HeaderAt(0).next;
      ghost var i := 1;
      while 0 < mem < c.memSize
        invariant 1 <= i <= |b.used| && mem == b.starts[i] && lastUsed == HeaderAt(b.starts[i - 1]).used
        invariant 0 < mem <= c.memSize && (mem < c.memSize <==> i < |b.used|)
        invariant ok <==> SaneUpTo(b, i)
        decreases |b.used| - i
      {
        Positions(b, i);
        var fine := CheckBlock(mem, lastUsed, b, i);
        SaneNext(b, i);
        ok := ok && fine;
        lastUsed := HeaderAt(mem).used;
        mem, i := HeaderAt(mem).next, i + 1;
      }
      ok := ok && mem == c.memSize && HeaderAt(mem) == Header(c.memSize, c.memSize, 1);
    }

    // The asserts of mem_sanity about one block; lastUsed is the flag of the block before.
    method CheckBlock(mem: nat, lastUsed: nat, ghost b: Blocks, ghost i: nat) returns (ok: bool)
      requires Leads(b) && 0 < i < |b.used| && mem == b.starts[i] && lastUsed == HeaderAt(b.starts[i - 1]).used
      ensures ok <==> SaneBlock(b, i)
    {
      ok := mem % c.align == 0 && HeaderAt(mem).prev <= c.memSize && HeaderAt(mem).next <= c.memSize;
      ok := ok && (if lastUsed == 0 then HeaderAt(mem).used == 1 else HeaderAt(mem).used <= 1);
      ok := ok && LinkValid(mem);
      FineIs(b, i);
    }

    lemma Positions(b: Blocks, i: nat)
      requires Leads(b) && i < |b.used|
      ensures b.WellFormed() && 0 < c.align
      ensures b.starts[0] == 0 && b.starts[i] < b.starts[i + 1] <= c.memSize == b.starts[|b.used|]
      ensures b.starts[i + 1] < c.memSize <==> i + 1 < |b.used|
      ensures HeaderAt(b.starts[i]).next == b.starts[i + 1] && b.starts[i] < c.memSize
    {
    }

    lemma FineIs(b: Blocks, i: nat)
      requires Leads(b) && 0 < i < |b.used|
      ensures b.starts[i] < c.memSize && b.starts[i + 1] <= c.memSize
      ensures var mem, lastUsed := b.starts[i], HeaderAt(b.starts[i - 1]).used;
        SaneBlock(b, i) <==>
          && mem % c.align == 0 && HeaderAt(mem).prev <= c.memSize && HeaderAt(mem).next <= c.memSize
          && (if lastUsed == 0 then HeaderAt(mem).used == 1 else HeaderAt(mem).used <= 1)
          && LinkValid(mem)
    {
    }
  }

  // What a user of the heap does: mem_malloc, with what other contexts do meanwhile, or a call on a block.
  datatype Op = MallocOp(sizeIn: MemSize, sched: seq<seq<Call>>) | CallOp(call: Call)

  // What an operation does to the blocks b, and what it returns.
  ghost predicate OpStep(c: Config, b: Blocks, op: Op, r: Option<nat>, b': Blocks)
    requires b.WellFormed() && 0 < c.align
  {
    match op
    case MallocOp(sizeIn, sched) => exists w1, w2 ::
      MallocStep(c, b, sizeIn, sched, w1, w2, r, b') && Mallocs(c, b, sizeIn, sched, w1, w2, r, b')
    case CallOp(call) => r.None? && b' == Apply(c, b, call) && Called(c, b, call, b')
  }

  // The blocks before and after each operation.
  ghost predicate IsRun(c: Config, trace: seq<Blocks>, ops: seq<Op>, results: seq<Option<nat>>)
    requires 0 < c.align
  {
    && |trace| == |ops| + 1 && |results| == |ops|
    && (forall n :: 0 <= n < |trace| ==> Valid(c, trace[n]))
    && forall n :: 0 <= n < |ops| ==> OpStep(c, trace[n], ops[n], results[n], trace[n + 1])
  }

  lemma RunOn(c: Config, trace: seq<Blocks>, ops: seq<Op>, n: nat, results: seq<Option<nat>>, r: Option<nat>, b: Blocks)
    requires 0 < c.align && n < |ops| && IsRun(c, trace, ops[..n], results)
    requires Valid(c, b) && OpStep(c, trace[n], ops[n], r, b)
    ensures IsRun(c, trace + [b], ops[..n + 1], results + [r])
  {
    hide OpStep, Valid;
  }

  // Any run from mem_init on: every operation has its effect on the blocks, which are valid after each of
  // them; and in the end lfree is exact, mem_sanity passes, and if nothing is left allocated there is
  // mem_init's single free block again.
  method Session(c: Config, ops: seq<Op>)
    returns (h: Heap, results: seq<Option<nat>>, sane: bool, ghost trace: seq<Blocks>)
    requires c.Valid() && c.Aligned()
    ensures h.c == c && h.Linked() && h.AlignedHeap() && h.LfreeExact() && sane
    ensures IsRun(c, trace, ops, results) && trace[0] == Initial(c) && trace[|ops|] == h.blocks
    ensures (forall p :: !IsLive(h.blocks, p)) ==>
              h.blocks == Initial(c) && h.lfree == 0 && h.HeaderAt(0) == Header(c.memSize, 0, 0)
  {
    h := new Heap(c);
    InitialAligned(c);
    results, trace := [], [h.blocks];
    for n := 0 to |ops|
      invariant h.c == c && fresh(h) && fresh(h.ram)
      invariant h.Linked() && h.AlignedHeap() && h.LfreeExact()
      invariant IsRun(c, trace, ops[..n], results) && trace[0] == Initial(c) && trace[n] == h.blocks
    {
      var r := Operate(h, ops[n]);
      RunOn(c, trace, ops, n, results, r, h.blocks);
      results, trace := results + [r], trace + [h.blocks];
    }
    assert ops[..|ops|] == ops;
    h.LinkedIsSane();
    sane := h.Sanity(h.blocks);
    if forall p :: !IsLive(h.blocks, p) {
      NothingLeft(h);
    }
  }

  // One operation.
  method Operate(h: Heap, op: Op) returns (r: Option<nat>)
    requires h.Linked() && h.AlignedHeap() && h.LfreeExact()
    modifies h`lfree, h`low, h`blocks, h`freeCount, h.ram
    ensures h.Linked() && h.AlignedHeap() && h.LfreeExact()
    ensures Valid(h.c, h.blocks) && OpStep(h.c, old(h.blocks), op, r, h.blocks)
  {
    hide MallocStep, Mallocs, Apply, Called;
    r := None;
    match op {
      case MallocOp(sizeIn, sched) =>
        ghost var commit, w1, w2;
        r, commit, w1, w2 := h.Malloc(sizeIn, sched);
      case CallOp(call) => h.Perform(call);
    }
  }

  lemma NothingLeft(h: Heap)
    requires h.Linked() && h.LfreeExact() && forall p :: !IsLive(h.blocks, p)
    ensures h.blocks == Initial(h.c) && h.lfree == 0 && h.HeaderAt(0) == Header(h.c.memSize, 0, 0)
  {
    forall k | 0 <= k < |h.blocks.used|
      ensures !h.blocks.used[k]
    {
      assert !IsLive(h.blocks, h.blocks.starts[k]);
    }
    NoLiveBlockIsInitial(h.c, h.blocks);
    assert h.HeaderIs(h.blocks, 0);
  }
}
