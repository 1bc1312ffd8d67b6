// The heap told by its blocks in use: what every operation does to them, without the list of blocks.
module HeapLive {
  import opened HeapBlocks
  import opened HeapRuns
  import opened Wrappers

  // [p, e) is a block, in use or free.
  ghost predicate Has(b: Blocks, p: nat, e: nat, used: bool)
    requires b.WellFormed()
  {
    exists k :: 0 <= k < |b.used| && b.starts[k] == p && b.starts[k + 1] == e && b.used[k] == used
  }

  ghost predicate IsFree(b: Blocks, p: nat, e: nat)
    requires b.WellFormed()
  {
    Has(b, p, e, false)
  }

  // A free block starts at p.
  ghost predicate FreeFrom(b: Blocks, p: nat)
    requires b.WellFormed()
  {
    exists e: nat :: IsFree(b, p, e)
  }

  lemma InUse(b: Blocks)
    requires b.WellFormed()
    ensures forall p: nat, e: nat :: IsBlock(b, p, e) <==> Has(b, p, e, true)
  {
  }

  // ---------------------------------------------------------------- the blocks in use decide

  lemma BlockIndex(c: Config, b: Blocks, k: nat, e: nat)
    requires c.Valid() && Tiled(c, b) && k < |b.used| && IsBlock(b, b.starts[k], e)
    ensures b.used[k] && b.starts[k + 1] == e
  {
    var j :| 0 <= j < |b.used| && b.starts[j] == b.starts[k] && b.starts[j + 1] == e && b.used[j];
    StartsCompare(c, b, j, k);
  }

  // Behind a free block there is a block in use, or the end of the heap.
  lemma NextInUse(c: Config, b: Blocks, d: Blocks, i: nat)
    requires Valid(c, b) && Valid(c, d) && i < |b.used| && i < |d.used| && b.starts[i] == d.starts[i]
    requires forall p: nat, e: nat :: IsBlock(b, p, e) ==> IsBlock(d, p, e)
    requires !b.used[i] && !d.used[i]
    ensures d.starts[i + 1] <= b.starts[i + 1]
  {
    hide Tiled, Coalesced, IsBlock;
    LastIsEnd(c, d, i + 1);
    LastIsEnd(c, b, i + 1);
    if i + 1 < |b.used| {
      Neighbours(b, i + 1);
      IsBlockAt(b, i + 1);
      var j := IndexOf(d, b.starts[i + 1], b.starts[i + 2]);
      StartsCompare(c, b, i, i + 1);
      StartsCompare(c, d, i, j);
      StartsCompare(c, d, i + 1, j);
    }
  }

  lemma IsBlockAt(b: Blocks, k: nat)
    requires b.WellFormed() && k < |b.used| && b.used[k]
    ensures IsBlock(b, b.starts[k], b.starts[k + 1])
  {
  }

  lemma IndexOf(b: Blocks, p: nat, e: nat) returns (k: nat)
    requires b.WellFormed() && IsBlock(b, p, e)
    ensures k < |b.used| && b.starts[k] == p && b.starts[k + 1] == e && b.used[k]
  {
    k :| 0 <= k < |b.used| && b.starts[k] == p && b.starts[k + 1] == e && b.used[k];
  }

  lemma {:induction false} SameUpTo(c: Config, b: Blocks, d: Blocks, i: nat)
    requires Valid(c, b) && Valid(c, d) && i <= |b.used|
    requires forall p: nat, e: nat :: IsBlock(b, p, e) <==> IsBlock(d, p, e)
    ensures i <= |d.used| && b.starts[..i + 1] == d.starts[..i + 1] && b.used[..i] == d.used[..i]
  {
    if 0 < i {
      var k := i - 1;
      SameUpTo(c, b, d, k);
      assert b.starts[k] == b.starts[..k + 1][k] == d.starts[k];
      LastIsEnd(c, b, k);
      LastIsEnd(c, d, k);
      if b.used[k] {
        assert IsBlock(b, b.starts[k], b.starts[k + 1]);
        BlockIndex(c, d, k, b.starts[k + 1]);
      } else if d.used[k] {
        assert IsBlock(d, d.starts[k], d.starts[k + 1]);
        BlockIndex(c, b, k, d.starts[k + 1]);
      } else {
        NextInUse(c, b, d, k);
        NextInUse(c, d, b, k);
      }
      assert b.starts[..i + 1] == b.starts[..k + 1] + [b.starts[i]];
      assert d.starts[..i + 1] == d.starts[..k + 1] + [d.starts[i]];
      assert b.used[..i] == b.used[..k] + [b.used[k]] && d.used[..i] == d.used[..k] + [d.used[k]];
    }
  }

  // A valid heap is decided by its blocks in use: what lies between them is one free block each.
  lemma InUseDecides(c: Config, b: Blocks, d: Blocks)
    requires Valid(c, b) && Valid(c, d)
    requires forall p: nat, e: nat :: IsBlock(b, p, e) <==> IsBlock(d, p, e)
    ensures b == d
  {
    SameUpTo(c, b, d, |b.used|);
    SameUpTo(c, d, b, |d.used|);
    assert b.starts[..|b.used| + 1] == b.starts && d.starts[..|d.used| + 1] == d.starts;
    assert b.used[..|b.used|] == b.used && d.used[..|d.used|] == d.used;
  }

  // ---------------------------------------------------------------- how many bytes are free

  // The bytes, headers included, of the free ones of the first i blocks.
  ghost function FreeUpTo(b: Blocks, i: nat): int
    requires b.WellFormed() && i <= |b.used|
  {
    if i == 0 then 0 else FreeUpTo(b, i - 1) + if b.used[i - 1] then 0 else b.starts[i] as int - b.starts[i - 1]
  }

  ghost function FreeBytes(b: Blocks): int
    requires b.WellFormed()
  {
    FreeUpTo(b, |b.used|)
  }

  // A flag that is changed.
  lemma {:induction false} FlagFree(b: Blocks, k: nat, v: bool, i: nat)
    requires b.WellFormed() && k < |b.used| && i <= |b.used|
    ensures var room: int := b.starts[k + 1] as int - b.starts[k];
      FreeUpTo(Blocks(b.starts, b.used[k := v]), i)
      == FreeUpTo(b, i) + if i <= k || v == b.used[k] then 0 else if v then 0 - room else room
  {
    if 0 < i {
      FlagFree(b, k, v, i - 1);
    }
  }

  // A free block that is cut off a block in use.
  lemma {:induction false} SplitFree(b: Blocks, d: Blocks, k: nat, at: nat, i: nat)
    requires IsSplit(b, d, k, at) && b.used[k] && i <= |b.used|
    ensures FreeUpTo(d, if i <= k then i else i + 1)
         == FreeUpTo(b, i) + if i <= k then 0 else b.starts[k + 1] - at
  {
    if 0 < i {
      SplitFree(b, d, k, at, i - 1);
      if i == k + 1 {
        assert d.starts[k + 2] == b.starts[k + 1] && d.starts[k + 1] == at && !d.used[k + 1] && d.used[k];
        assert FreeUpTo(d, k + 2) == FreeUpTo(d, k + 1) + (b.starts[k + 1] - at);
      } else {
        var j := if i <= k then i else i + 1;
        assert d.used[j - 1] == b.used[i - 1] && d.starts[j] == b.starts[i] && d.starts[j - 1] == b.starts[i - 1];
      }
    }
  }

  // Two free blocks that are joined.
  lemma {:induction false} MergeFree(b: Blocks, d: Blocks, k: nat, i: nat)
    requires Merged(b, d, k) && !b.used[k] && !b.used[k + 1] && i <= |d.used|
    ensures FreeUpTo(d, i) == FreeUpTo(b, if i <= k then i else i + 1)
  {
    if 0 < i {
      MergeFree(b, d, k, i - 1);
      var j := if i <= k then i else i + 1;
      assert d.starts[i] == b.starts[j] && d.used[i - 1] == b.used[if i - 1 <= k then i - 1 else i];
      assert i == k + 1 ==> d.starts[k] == b.starts[k] && d.starts[k + 1] == b.starts[k + 2];
    }
  }

  // ---------------------------------------------------------------- mem_malloc

  // The size mem_malloc works with: the least multiple of the alignment that holds sizeIn bytes, or
  // MIN_SIZE if that is more.
  ghost predicate IsRounded(c: Config, sizeIn: nat, size: nat)
    requires 0 < c.align
  {
    exists up: nat :: sizeIn <= up < sizeIn + c.align && up % c.align == 0
                      && size == if up < c.minSize then c.minSize else up
  }

  // The blocks once size bytes were taken of the free block [p, e): if a header and MIN_SIZE are left
  // beyond the size, the block taken ends behind its data and a free block begins there, which ends where
  // the old one did; otherwise all of it was taken.  Every other block, in use or free, is as it was.
  ghost predicate AfterTaking(c: Config, b: Blocks, p: nat, e: nat, size: nat, q: nat, f: nat, used: bool)
    requires b.WellFormed()
  {
    var at := p + c.header + size;
    if at + c.header + c.minSize <= e then
      (q, f, used) == (p, at, true) || (q, f, used) == (at, e, false) || (q != p && Has(b, q, f, used))
    else (q, f, used) == (p, e, true) || (q != p && Has(b, q, f, used))
  }

  ghost predicate Taken(c: Config, b: Blocks, p: nat, e: nat, size: nat, b': Blocks)
    requires b.WellFormed() && b'.WellFormed()
  {
    && IsFree(b, p, e) && p + c.header + size <= e
    && (forall q: nat, f: nat, used: bool :: Has(b', q, f, used) <==> AfterTaking(c, b, p, e, size, q, f, used))
    && FreeBytes(b') == FreeBytes(b) - if p + c.header + size + c.header + c.minSize <= e then c.header + size
                                       else e - p
  }

  // What mem_malloc makes of the heap it finds when it ends its search: NULL if the size is 0 or more
  // than the heap, or if no free block holds it, and otherwise the data of the lowest one that does.
  ghost predicate Malloced(c: Config, b: Blocks, sizeIn: nat, r: Option<nat>, b': Blocks)
    requires b.WellFormed() && b'.WellFormed() && 0 < c.align
  {
    exists size: nat {:trigger IsRounded(c, sizeIn, size)} :: IsRounded(c, sizeIn, size) &&
      match r
      case None =>
        && b' == b
        && (0 < sizeIn && size <= c.memSize ==> forall q: nat, f: nat :: IsFree(b, q, f) ==> f < q + c.header + size)
      case Some(mem) =>
        && 0 < sizeIn && c.header <= mem
        && (forall q: nat, f: nat :: IsFree(b, q, f) && q < mem - c.header ==> f < q + c.header + size)
        && exists e: nat {:trigger Taken(c, b, mem - c.header, e, size, b')} ::
             Taken(c, b, mem - c.header, e, size, b')
  }

  lemma OneBlockAt(c: Config, b: Blocks, i: nat, j: nat)
    requires c.Valid() && Tiled(c, b) && i < |b.used| && j < |b.used| && b.starts[i] == b.starts[j]
    ensures i == j
  {
    StartsCompare(c, b, i, j);
  }

  lemma FlagHas(c: Config, b: Blocks, k: nat, v: bool, q: nat, f: nat, used: bool)
    requires c.Valid() && b.WellFormed() && Tiled(c, b) && k < |b.used|
    ensures Has(Blocks(b.starts, b.used[k := v]), q, f, used) <==>
              (q, f, used) == (b.starts[k], b.starts[k + 1], v) || (q != b.starts[k] && Has(b, q, f, used))
  {
    hide Tiled;
    var d := Blocks(b.starts, b.used[k := v]);
    if Has(d, q, f, used) {
      var i :| 0 <= i < |d.used| && d.starts[i] == q && d.starts[i + 1] == f && d.used[i] == used;
      if q == b.starts[k] {
        OneBlockAt(c, b, i, k);
      }
    }
    if q != b.starts[k] && Has(b, q, f, used) {
      var i :| 0 <= i < |b.used| && b.starts[i] == q && b.starts[i + 1] == f && b.used[i] == used;
      assert d.used[i] == used;
    }
    assert d.used[k] == v;
  }

  lemma SplitHas(c: Config, b: Blocks, d: Blocks, k: nat, at: nat, q: nat, f: nat, used: bool)
    requires c.Valid() && Tiled(c, b) && IsSplit(b, d, k, at) && b.used[k]
    ensures Has(d, q, f, used) <==>
              || (q, f, used) == (b.starts[k], at, true) || (q, f, used) == (at, b.starts[k + 1], false)
              || (q != b.starts[k] && Has(b, q, f, used))
  {
    hide Tiled;
    if Has(d, q, f, used) {
      SplitHasFrom(c, b, d, k, at, q, f, used);
    }
    if q != b.starts[k] && Has(b, q, f, used) {
      SplitKeeps(b, d, k, at, q, f, used);
    }
    SplitParts(b, d, k, at);
    hide IsSplit;
  }

  lemma SplitHasFrom(c: Config, b: Blocks, d: Blocks, k: nat, at: nat, q: nat, f: nat, used: bool)
    requires c.Valid() && Tiled(c, b) && IsSplit(b, d, k, at) && b.used[k] && Has(d, q, f, used)
    ensures || (q, f, used) == (b.starts[k], at, true) || (q, f, used) == (at, b.starts[k + 1], false)
            || (q != b.starts[k] && Has(b, q, f, used))
  {
    hide Tiled;
    var i :| 0 <= i < |d.used| && d.starts[i] == q && d.starts[i + 1] == f && d.used[i] == used;
    if i != k && i != k + 1 {
      var j := if i < k then i else i - 1;
      assert b.starts[j] == q && b.starts[j + 1] == f && b.used[j] == used;
      if q == b.starts[k] {
        OneBlockAt(c, b, j, k);
      }
    }
  }

  lemma SplitKeeps(b: Blocks, d: Blocks, k: nat, at: nat, q: nat, f: nat, used: bool)
    requires IsSplit(b, d, k, at) && q != b.starts[k] && Has(b, q, f, used)
    ensures Has(d, q, f, used)
  {
    var j :| 0 <= j < |b.used| && b.starts[j] == q && b.starts[j + 1] == f && b.used[j] == used;
    var i := if j < k then j else j + 1;
    assert d.starts[i] == q && d.starts[i + 1] == f && d.used[i] == used;
  }

  lemma SplitParts(b: Blocks, d: Blocks, k: nat, at: nat)
    requires IsSplit(b, d, k, at) && b.used[k]
    ensures Has(d, b.starts[k], at, true) && Has(d, at, b.starts[k + 1], false)
  {
    assert d.starts[k] == b.starts[k] && d.starts[k + 1] == at && d.starts[k + 2] == b.starts[k + 1];
    assert d.used[k] && !d.used[k + 1];
  }

  lemma AllocHas(c: Config, b: Blocks, k: nat, size: nat, q: nat, f: nat, used: bool)
    requires Valid(c, b) && k < |b.used| && Fits(c, b, k, size)
    ensures Has(Alloc(c, b, k, size), q, f, used)
       <==> AfterTaking(c, b, b.starts[k], b.starts[k + 1], size, q, f, used)
  {
    hide Has, Tiled, Coalesced, Split, IsSplit;
    var b1, at := Blocks(b.starts, b.used[k := true]), b.starts[k] + c.header + size;
    UsedFlagTiled(c, b, k, true);
    FlagHas(c, b, k, true, q, f, used);
    if at + c.header + c.minSize <= b.starts[k + 1] {
      SplitIsSplit(b1, k, at);
      SplitHas(c, b1, Alloc(c, b, k, size), k, at, q, f, used);
    }
  }

  lemma AllocFree(c: Config, b: Blocks, k: nat, size: nat)
    requires Valid(c, b) && k < |b.used| && Fits(c, b, k, size)
    ensures FreeBytes(Alloc(c, b, k, size))
         == FreeBytes(b) - if b.starts[k] + c.header + size + c.header + c.minSize <= b.starts[k + 1]
                           then c.header + size else b.starts[k + 1] - b.starts[k]
  {
    hide Tiled, Coalesced, Split;
    var b1, at := Blocks(b.starts, b.used[k := true]), b.starts[k] + c.header + size;
    FlagFree(b, k, true, |b.used|);
    if at + c.header + c.minSize <= b.starts[k + 1] {
      SplitIsSplit(b1, k, at);
      SplitFree(b1, Split(b1, k, at), k, at, |b.used|);
    }
  }

  // The block mem_malloc takes.
  lemma AllocTaken(c: Config, b: Blocks, k: nat, size: nat)
    requires Valid(c, b) && k < |b.used| && Fits(c, b, k, size)
    ensures Taken(c, b, b.starts[k], b.starts[k + 1], size, Alloc(c, b, k, size))
  {
    hide Tiled, Coalesced, Alloc, FreeBytes, AfterTaking;
    AllocFree(c, b, k, size);
    assert Has(b, b.starts[k], b.starts[k + 1], false);
    forall q: nat, f: nat, used: bool
      ensures Has(Alloc(c, b, k, size), q, f, used)
         <==> AfterTaking(c, b, b.starts[k], b.starts[k + 1], size, q, f, used)
    {
      AllocHas(c, b, k, size, q, f, used);
    }
  }

  lemma NoFit(c: Config, b: Blocks, k: nat, size: nat)
    requires Valid(c, b) && k <= |b.used| && forall j :: 0 <= j < k ==> !Fits(c, b, j, size)
    ensures forall q: nat, f: nat :: IsFree(b, q, f) && q < b.starts[k] ==> f < q + c.header + size
  {
    hide Tiled, Coalesced;
    forall q: nat, f: nat | IsFree(b, q, f) && q < b.starts[k] ensures f < q + c.header + size {
      var j :| 0 <= j < |b.used| && b.starts[j] == q && b.starts[j + 1] == f && !b.used[j];
      StartsCompare(c, b, j, k);
      assert !Fits(c, b, j, size);
    }
  }

  // What mem_malloc makes of a heap that others leave alone, whatever FirstFit and Alloc say.
  lemma FitMalloced(c: Config, b: Blocks, sizeIn: MemSize)
    requires Valid(c, b) && 0 < sizeIn && RoundSize(c, sizeIn).Rounded?
    ensures var size := RoundSize(c, sizeIn).size;
      var k := FirstFit(c, b, size, 0);
      if k == |b.used| then Malloced(c, b, sizeIn, None, b)
      else Malloced(c, b, sizeIn, Some(b.starts[k] + c.header), Alloc(c, b, k, size))
  {
    hide Tiled, Coalesced, Has, Alloc, Taken, IsRounded, RoundSize;
    RoundedIs(c, sizeIn);
    var size := RoundSize(c, sizeIn).size;
    var k := FirstFit(c, b, size, 0);
    NoFit(c, b, k, size);
    if k < |b.used| {
      AllocTaken(c, b, k, size);
      MallocedSome(c, b, sizeIn, size, b.starts[k], b.starts[k + 1], Alloc(c, b, k, size));
    } else {
      forall q: nat, f: nat | IsFree(b, q, f) ensures q < b.starts[k] {
        FreeInHeap(c, b, q, f);
      }
    }
  }

  lemma MallocedSome(c: Config, b: Blocks, sizeIn: nat, size: nat, p: nat, e: nat, b': Blocks)
    requires b.WellFormed() && b'.WellFormed() && 0 < c.align && 0 < sizeIn
    requires IsRounded(c, sizeIn, size) && Taken(c, b, p, e, size, b')
    requires forall q: nat, f: nat :: IsFree(b, q, f) && q < p ==> f < q + c.header + size
    ensures Malloced(c, b, sizeIn, Some(p + c.header), b')
  {
    hide Taken, IsRounded, IsFree;
    var mem := p + c.header;
    assert Taken(c, b, mem - c.header, e, size, b');
  }

  lemma FreeInHeap(c: Config, b: Blocks, q: nat, f: nat)
    requires Valid(c, b) && IsFree(b, q, f)
    ensures q < c.memSize == b.starts[|b.used|]
  {
    hide Coalesced;
    var j :| 0 <= j < |b.used| && b.starts[j] == q && b.starts[j + 1] == f && !b.used[j];
  }

  lemma InvalidMalloced(c: Config, b: Blocks, sizeIn: MemSize)
    requires Valid(c, b) && (sizeIn == 0 || RoundSize(c, sizeIn).Invalid?)
    ensures Malloced(c, b, sizeIn, None, b)
  {
    hide Tiled, Coalesced, RoundSize, IsRounded;
    RoundedIs(c, sizeIn);
  }

  // ---------------------------------------------------------------- mem_free and mem_trim

  // The blocks in use that a call of mem_free or mem_trim leaves: those it does not name, and the one it
  // trims, up to its new end.
  ghost predicate InUseExactly(b: Blocks, p: nat, left: Option<nat>, b': Blocks)
    requires b.WellFormed() && b'.WellFormed()
  {
    forall q: nat, f: nat :: IsBlock(b', q, f) <==> if q == p then left == Some(f) else IsBlock(b, q, f)
  }

  // Where the block [p, e) ends once it is trimmed: the rest must reach a free block or hold a header and
  // MIN_SIZE.
  ghost function TrimmedEnd(c: Config, b: Blocks, p: nat, e: nat, size: nat): nat
    requires b.WellFormed()
  {
    var at := p + c.header + size;
    if at < e && (FreeFrom(b, e) || at + c.header + c.minSize <= e) then at else e
  }

  // What a call does, whatever Apply says: mem_free takes the block named off the blocks in use and gives
  // all its bytes back; mem_trim cuts its end off and gives the bytes behind it back.
  ghost predicate Called(c: Config, b: Blocks, call: Call, b': Blocks)
    requires b.WellFormed() && b'.WellFormed() && 0 < c.align
  {
    && (!IsLive(b, call.mem) ==> b' == b)
    && forall e: nat :: IsBlock(b, call.mem, e) ==>
         match call
         case FreeCall(p) => InUseExactly(b, p, None, b') && FreeBytes(b') == FreeBytes(b) + (e - p)
         case TrimCall(p, newSize) =>
           exists size: nat {:trigger IsRounded(c, newSize, size)} :: IsRounded(c, newSize, size) &&
             if size > c.memSize then b' == b
             else
               var end := TrimmedEnd(c, b, p, e, size);
               InUseExactly(b, p, Some(end), b') && FreeBytes(b') == FreeBytes(b) + (e - end)
  }

  lemma MergedInUse(b: Blocks, d: Blocks, k: nat, q: nat, f: nat)
    requires Merged(b, d, k) && !b.used[k] && !b.used[k + 1]
    ensures IsBlock(d, q, f) <==> IsBlock(b, q, f)
  {
    if IsBlock(d, q, f) {
      var i := IndexOf(d, q, f);
      var j := if i <= k then i else i + 1;
      assert b.starts[j] == q && b.starts[j + 1] == f && b.used[j];
    }
    if IsBlock(b, q, f) {
      var j := IndexOf(b, q, f);
      var i := if j <= k then j else j - 1;
      assert d.starts[i] == q && d.starts[i + 1] == f && d.used[i];
    }
  }

  lemma ReleaseInUse(c: Config, b: Blocks, k: nat)
    requires Valid(c, b) && k < |b.used| && b.used[k]
    ensures InUseExactly(b, b.starts[k], None, Release(b, k))
    ensures FreeBytes(Release(b, k)) == FreeBytes(b) + (b.starts[k + 1] - b.starts[k])
  {
    hide Has, IsBlock, Tiled, Coalesced, Release, Merged, InHeader, FreeUpTo;
    var b0, b1, b2 := ReleaseInSteps(c, b, k);
    FlagFree(b, k, false, |b.used|);
    if b1 != b0 {
      MergeFree(b0, b1, k, |b1.used|);
      MergedSize(b0, b1, k);
    }
    if b2 != b1 {
      MergeFree(b1, b2, k - 1, |b2.used|);
      MergedSize(b1, b2, k - 1);
    }
    forall q: nat, f: nat
      ensures IsBlock(b2, q, f) <==> q != b.starts[k] && IsBlock(b, q, f)
    {
      InUse(b);
      InUse(b0);
      FlagHas(c, b, k, false, q, f, true);
      if b1 != b0 {
        MergedInUse(b0, b1, k, q, f);
      }
      if b2 != b1 {
        MergedInUse(b1, b2, k - 1, q, f);
      }
    }
  }

  lemma MergedSize(b: Blocks, d: Blocks, k: nat)
    requires Merged(b, d, k)
    ensures |b.used| == |d.used| + 1 && k < |d.used|
  {
  }

  // The free block behind a block in use that begins further down.
  lemma {:induction false} MoveFree(b: Blocks, k: nat, at: nat, i: nat)
    requires b.WellFormed() && k + 1 < |b.used| && b.used[k] && !b.used[k + 1] && i <= |b.used|
    ensures FreeUpTo(Move(b, k, at), i) == FreeUpTo(b, i) + if i <= k + 1 then 0 else b.starts[k + 1] - at
  {
    if 0 < i {
      MoveFree(b, k, at, i - 1);
    }
  }

  lemma MoveInUse(c: Config, b: Blocks, k: nat, at: nat, q: nat, f: nat)
    requires c.Valid() && b.WellFormed() && Tiled(c, b) && k + 1 < |b.used| && b.used[k] && !b.used[k + 1]
    ensures IsBlock(Move(b, k, at), q, f) <==> if q == b.starts[k] then f == at else IsBlock(b, q, f)
  {
    hide Tiled;
    var d := Move(b, k, at);
    if IsBlock(d, q, f) {
      var i := IndexOf(d, q, f);
      if i != k {
        assert b.starts[i] == q && b.starts[i + 1] == f && b.used[i];
        if q == b.starts[k] {
          OneBlockAt(c, b, i, k);
        }
      }
    }
    if q != b.starts[k] && IsBlock(b, q, f) {
      var i := IndexOf(b, q, f);
      assert d.starts[i] == q && d.starts[i + 1] == f && d.used[i];
    }
    assert d.used[k] && d.starts[k] == b.starts[k] && d.starts[k + 1] == at;
  }

  // Whether a free block lies behind block k.
  lemma FreeBehind(c: Config, b: Blocks, k: nat)
    requires Valid(c, b) && k < |b.used|
    ensures k + 1 < |b.used| && !b.used[k + 1] <==> FreeFrom(b, b.starts[k + 1])
  {
    hide Tiled, Coalesced;
    if k + 1 < |b.used| && !b.used[k + 1] {
      assert IsFree(b, b.starts[k + 1], b.starts[k + 2]);
    }
    if FreeFrom(b, b.starts[k + 1]) {
      var f: nat :| IsFree(b, b.starts[k + 1], f);
      var i :| 0 <= i < |b.used| && b.starts[i] == b.starts[k + 1] && b.starts[i + 1] == f && !b.used[i];
      StartsCompare(c, b, i, k + 1);
    }
  }

  lemma TrimInUse(c: Config, b: Blocks, k: nat, size: nat)
    requires Valid(c, b) && k < |b.used| && b.used[k]
    ensures var e := b.starts[k + 1];
      var end := TrimmedEnd(c, b, b.starts[k], e, size);
      && InUseExactly(b, b.starts[k], Some(end), Trim(c, b, k, size))
      && FreeBytes(Trim(c, b, k, size)) == FreeBytes(b) + (e - end)
  {
    hide Has, IsBlock, Tiled, Coalesced, FreeUpTo, Split, Move, IsSplit;
    var at, d := b.starts[k] + c.header + size, Trim(c, b, k, size);
    FreeBehind(c, b, k);
    InUse(b);
    InUse(d);
    if size < DataSize(c, b, k) {
      if k + 1 < |b.used| && !b.used[k + 1] {
        MoveFree(b, k, at, |b.used|);
        MoveSize(b, k, at);
        forall q: nat, f: nat
          ensures IsBlock(d, q, f) <==> if q == b.starts[k] then f == at else IsBlock(b, q, f)
        {
          MoveInUse(c, b, k, at, q, f);
        }
        return;
      } else if size + c.header + c.minSize <= DataSize(c, b, k) {
        SplitIsSplit(b, k, at);
        SplitSize(b, d, k, at);
        SplitFree(b, d, k, at, |b.used|);
        forall q: nat, f: nat
          ensures IsBlock(d, q, f) <==> if q == b.starts[k] then f == at else IsBlock(b, q, f)
        {
          SplitHas(c, b, d, k, at, q, f, true);
        }
        return;
      }
    }
    forall q: nat, f: nat
      ensures IsBlock(b, q, f) <==> if q == b.starts[k] then f == b.starts[k + 1] else IsBlock(b, q, f)
    {
      if q == b.starts[k] {
        IsBlockAt(b, k);
        if IsBlock(b, q, f) {
          BlockIndex(c, b, k, f);
        }
      }
    }
  }

  lemma MoveSize(b: Blocks, k: nat, at: nat)
    requires b.WellFormed() && k + 1 < |b.used|
    ensures |Move(b, k, at).used| == |b.used|
  {
  }

  lemma SplitSize(b: Blocks, d: Blocks, k: nat, at: nat)
    requires IsSplit(b, d, k, at)
    ensures |d.used| == |b.used| + 1
  {
  }

  lemma RoundedIs(c: Config, sizeIn: MemSize)
    requires c.Valid()
    ensures match RoundSize(c, sizeIn)
            case Invalid => exists size: nat :: IsRounded(c, sizeIn, size) && c.memSize < size
            case Rounded(size) => IsRounded(c, sizeIn, size) && size <= c.memSize
  {
    var up := AlignUp(c.align, sizeIn);
    AlignUpIsMultiple(c.align, sizeIn);
    RoundSizeExact(c, sizeIn);
    hide AlignUp;
    assert IsRounded(c, sizeIn, if up < c.minSize then c.minSize else up);
  }

  // Every call does that.
  lemma ApplyCalled(c: Config, b: Blocks, call: Call)
    requires Valid(c, b)
    ensures Called(c, b, call, Apply(c, b, call))
  {
    hide Tiled, Coalesced, Has, Release, Trim, FreeBytes, RoundSize, TrimmedEnd, InUseExactly;
    var p, k := call.mem, LiveIndex(b, call.mem, 0);
    if k < |b.used| {
      match call {
        case FreeCall(_) => ReleaseInUse(c, b, k);
        case TrimCall(_, newSize) =>
          RoundedIs(c, newSize);
          if RoundSize(c, newSize).Rounded? {
            TrimInUse(c, b, k, RoundSize(c, newSize).size);
          }
      }
      forall e: nat | IsBlock(b, p, e) ensures e == b.starts[k + 1] {
        BlockIndex(c, b, k, e);
      }
    }
  }

  // ---------------------------------------------------------------- other contexts

  lemma LiveBlock(b: Blocks, p: nat)
    requires b.WellFormed()
    ensures IsLive(b, p) <==> exists e: nat :: IsBlock(b, p, e)
  {
    if IsLive(b, p) {
      var k :| 0 <= k < |b.used| && b.starts[k] == p && b.used[k];
      IsBlockAt(b, k);
    }
  }

  lemma InUseLive(b: Blocks, mem: nat, left: Option<nat>, b': Blocks, p: nat)
    requires b.WellFormed() && b'.WellFormed() && InUseExactly(b, mem, left, b')
    ensures IsLive(b', p) <==> if p == mem then left.Some? else IsLive(b, p)
  {
    LiveBlock(b, p);
    LiveBlock(b', p);
    hide IsBlock, IsLive;
    if p == mem && left.Some? {
      assert IsBlock(b', p, left.value);
    }
  }

  lemma CalledLive(c: Config, b: Blocks, call: Call, p: nat)
    requires Valid(c, b)
    ensures IsLive(Apply(c, b, call), p) <==> IsLive(b, p) && call != FreeCall(p)
  {
    hide Apply, Tiled, Coalesced, IsBlock, IsLive, FreeBytes, IsRounded, TrimmedEnd, InUseExactly;
    ApplyCalled(c, b, call);
    if IsLive(b, call.mem) {
      LiveBlock(b, call.mem);
      var e: nat :| IsBlock(b, call.mem, e);
      var b' := Apply(c, b, call);
      match call {
        case FreeCall(mem) => InUseLive(b, mem, None, b', p);
        case TrimCall(mem, newSize) =>
          var size: nat :| IsRounded(c, newSize, size) &&
            if size > c.memSize then b' == b
            else InUseExactly(b, mem, Some(TrimmedEnd(c, b, mem, e, size)), b');
          if size <= c.memSize {
            InUseLive(b, mem, Some(TrimmedEnd(c, b, mem, e, size)), b', p);
          }
      }
    }
  }

  // Exactly the blocks that other contexts free are gone, whatever else they do.
  lemma {:induction false} RunCallsFree(c: Config, b: Blocks, calls: seq<Call>, busy: Option<nat>, p: nat)
    requires Valid(c, b)
    ensures IsLive(RunCalls(c, b, calls, busy), p) <==> IsLive(b, p) && (busy == Some(p) || FreeCall(p) !in calls)
  {
    hide Tiled, Coalesced, Apply, IsLive;
    if calls != [] {
      var rest, call := calls[..|calls| - 1], calls[|calls| - 1];
      assert calls == rest + [call];
      RunCallsValid(c, b, rest, busy);
      RunCallsFree(c, b, rest, busy, p);
      if busy != Some(call.mem) {
        CalledLive(c, RunCalls(c, b, rest, busy), call, p);
      }
    }
  }

  // The calls of the windows i to j, in their order.
  function CallsIn(sched: seq<seq<Call>>, i: nat, j: nat): seq<Call>
    requires i <= j
    decreases j
  {
    if i == j then [] else CallsIn(sched, i, j - 1) + if j <= |sched| then sched[j - 1] else []
  }

  // The calls are made one after the other, but for those that name the block mem_malloc is busy with.
  ghost predicate CalledInTurn(c: Config, trace: seq<Blocks>, calls: seq<Call>, busy: Option<nat>)
    requires 0 < c.align
  {
    && |trace| == |calls| + 1 && (forall n :: 0 <= n < |trace| ==> Valid(c, trace[n]))
    && forall n :: 0 <= n < |calls| ==>
         if busy == Some(calls[n].mem) then trace[n + 1] == trace[n] else Called(c, trace[n], calls[n], trace[n + 1])
  }

  lemma {:induction false} CallsInTurn(c: Config, b: Blocks, calls: seq<Call>, busy: Option<nat>)
    returns (trace: seq<Blocks>)
    requires Valid(c, b)
    ensures CalledInTurn(c, trace, calls, busy) && trace[0] == b && trace[|calls|] == RunCalls(c, b, calls, busy)
  {
    hide Tiled, Coalesced, Apply, Called;
    if calls == [] {
      trace := [b];
    } else {
      var rest, call := calls[..|calls| - 1], calls[|calls| - 1];
      trace := CallsInTurn(c, b, rest, busy);
      ApplyCalled(c, trace[|rest|], call);
      RunCallsValid(c, b, calls, busy);
      trace := trace + [RunCalls(c, b, calls, busy)];
    }
  }

  lemma {:induction false} CallsAfter(c: Config, b: Blocks, first: seq<Call>, more: seq<Call>, busy: Option<nat>)
    requires b.WellFormed() && 0 < c.align
    ensures RunCalls(c, b, first + more, busy) == RunCalls(c, RunCalls(c, b, first, busy), more, busy)
  {
    hide Apply;
    if more == [] {
      assert first + more == first;
    } else {
      var rest := more[..|more| - 1];
      CallsAfter(c, b, first, rest, busy);
      assert (first + more)[..|first| + |rest|] == first + rest;
    }
  }

  // What other contexts do in the windows of mem_malloc.
  lemma WindowsInTurn(c: Config, b: Blocks, sched: seq<seq<Call>>, i: nat, j: nat, busy: Option<nat>)
    returns (trace: seq<Blocks>)
    requires Valid(c, b) && i <= j
    ensures var calls := CallsIn(sched, i, j);
      CalledInTurn(c, trace, calls, busy) && trace[0] == b && trace[|calls|] == RunWindows(c, b, sched, i, j, busy)
  {
    hide CalledInTurn, RunCalls;
    WindowsAreCalls(c, b, sched, i, j, busy);
    trace := CallsInTurn(c, b, CallsIn(sched, i, j), busy);
  }

  lemma {:induction false} WindowsAreCalls(
      c: Config, b: Blocks, sched: seq<seq<Call>>, i: nat, j: nat, busy: Option<nat>)
    requires b.WellFormed() && 0 < c.align && i <= j
    ensures RunWindows(c, b, sched, i, j, busy) == RunCalls(c, b, CallsIn(sched, i, j), busy)
    decreases j
  {
    if i < j {
      WindowsAreCalls(c, b, sched, i, j - 1, busy);
      CallsAfter(c, b, CallsIn(sched, i, j - 1), CallsAt(sched, j - 1), busy);
    }
  }
}
