// The heap of mem.c seen as a sequence of blocks, without its bytes.
//
// `starts` lists the offset of every struct mem in address order, the end marker last;
// `used[i]` is the flag of block i.  Every heap operation is a function here; the class in
// Heap.dfy runs the same operations on a byte array and is proved against these functions.
module HeapBlocks {

  // mem_size_t is u16_t in this build, so sizes are reduced modulo 0x10000.
  const MEM_SIZE_T_RANGE: nat := 0x10000
  type MemSize = n: nat | n < 0x10000

  // MEM_SIZE_ALIGNED, SIZEOF_STRUCT_MEM, MIN_SIZE_ALIGNED and MEM_ALIGNMENT.
  datatype Config = Config(memSize: nat, header: nat, minSize: nat, align: nat) {
    ghost predicate Valid() {
      && 0 < align
      && 6 <= header                        // two u16 links and the flag fit in a header
      && 0 < minSize
      && header + minSize <= memSize
      && memSize + align + header <= MEM_SIZE_T_RANGE
    }

    // All sizes are multiples of the alignment.
    ghost predicate Aligned()
      requires 0 < align
    {
      header % align == 0 && minSize % align == 0 && memSize % align == 0
    }
  }

  datatype Blocks = Blocks(starts: seq<nat>, used: seq<bool>) {
    ghost predicate WellFormed() {
      1 <= |used| && |starts| == |used| + 1
    }
  }

  // Blocks of at least MIN_SIZE_ALIGNED data tile [0, MEM_SIZE_ALIGNED).
  ghost predicate Tiled(c: Config, b: Blocks) {
    && b.WellFormed()
    && b.starts[0] == 0
    && b.starts[|b.used|] == c.memSize
    && (forall i, j :: 0 <= i < j <= |b.used| ==> b.starts[i] + c.header + c.minSize <= b.starts[j])
  }

  ghost predicate AllAligned(c: Config, b: Blocks)
    requires 0 < c.align
  {
    forall p :: p in b.starts ==> p % c.align == 0
  }

  // No two neighbours are both free.
  ghost predicate Coalesced(b: Blocks)
    requires b.WellFormed()
  {
    forall i, j :: 0 <= i && i + 1 == j < |b.used| ==> b.used[i] || b.used[j]
  }

  // The heap invariant, but for alignment, which no other part of it needs (AllAligned).
  ghost predicate Valid(c: Config, b: Blocks) {
    c.Valid() && b.WellFormed() && Tiled(c, b) && Coalesced(b)
  }

  function Initial(c: Config): Blocks {
    Blocks([0, c.memSize], [false])
  }

  // The links and the flag of one struct mem.
  datatype Header = Header(next: nat, prev: nat, used: nat)

  // What the header of block i says when the list is linked as in b.
  function Spelled(b: Blocks, i: nat): Header
    requires b.WellFormed() && i < |b.used|
  {
    Header(b.starts[i + 1], if i == 0 then 0 else b.starts[i - 1], if b.used[i] then 1 else 0)
  }

  function DataSize(c: Config, b: Blocks, k: nat): int
    requires b.WellFormed() && k < |b.used|
  {
    b.starts[k + 1] - b.starts[k] - c.header
  }

  ghost predicate IsLive(b: Blocks, p: nat)
    requires b.WellFormed()
  {
    exists k :: 0 <= k < |b.used| && b.starts[k] == p && b.used[k]
  }

  // Address x belongs to the data of a live block.
  ghost predicate InLive(c: Config, b: Blocks, x: nat)
    requires b.WellFormed()
  {
    exists k :: 0 <= k < |b.used| && b.used[k] && b.starts[k] + c.header <= x < b.starts[k + 1]
  }

  // ---------------------------------------------------------------- sizes

  // LWIP_MEM_ALIGN_SIZE: round up to a multiple of the alignment; AlignUpIsMask gives the macro's formula.
  function AlignUp(a: nat, n: nat): (r: nat)
    requires 0 < a
    ensures n <= r < n + a
  {
    if n == 0 then 0 else if n <= a then a else a + AlignUp(a, n - a)
  }

  datatype Size = Invalid | Rounded(size: nat)

  // The size computation at the head of mem_malloc and mem_trim, with mem_size_t wrap-around.
  function RoundSize(c: Config, sizeIn: MemSize): Size
    requires 0 < c.align
  {
    var aligned := AlignUp(c.align, sizeIn) % MEM_SIZE_T_RANGE;
    var size := if aligned < c.minSize then c.minSize else aligned;
    if size > c.memSize || size < sizeIn then Invalid else Rounded(size)
  }

  // How often a goes into the rounded size, and what is left.
  lemma {:induction false} AlignUpParts(a: nat, n: nat) returns (q: nat, r: nat)
    requires 0 < a
    ensures r < a && AlignUp(a, n) == a * q && n + a - 1 == a * q + r
  {
    if n == 0 {
      q, r := 0, a - 1;
    } else if n <= a {
      q, r := 1, n - 1;
    } else {
      q, r := AlignUpParts(a, n - a);
      assert a * (q + 1) == a * q + a;
      q := q + 1;
    }
  }

  lemma AlignUpIsMask(a: nat, n: nat)
    requires 0 < a
    ensures AlignUp(a, n) == (n + a - 1) / a * a
  {
    var q, r := AlignUpParts(a, n);
    hide AlignUp;
    UniqueQuotient(a, (n + a - 1) / a, (n + a - 1) % a, q, r);
    assert q * a == a * q;
  }

  lemma {:induction false} AlignUpIsMultiple(a: nat, n: nat)
    requires 0 < a
    ensures AlignUp(a, n) % a == 0
  {
    if n > a {
      AlignUpIsMultiple(a, n - a);
      AlignedSum(a, a, AlignUp(a, n - a));
    }
  }

  lemma UniqueQuotient(a: nat, q1: int, r1: int, q2: int, r2: int)
    requires 0 <= r1 < a && 0 <= r2 < a && a * q1 + r1 == a * q2 + r2
    ensures q1 == q2 && r1 == r2
  {
    assert a * q2 - a * q1 == a * (q2 - q1) && a * q1 - a * q2 == a * (q1 - q2);
    MultipleIsLarge(a, if q1 <= q2 then q2 - q1 else q1 - q2);
  }

  lemma MultipleIsLarge(a: nat, d: nat)
    ensures d == 0 || a <= a * d
  {
    if d > 0 {
      assert a * d == a * (d - 1) + a;
    }
  }

  lemma AlignedSum(a: nat, x: nat, y: nat)
    requires 0 < a && x % a == 0 && y % a == 0
    ensures (x + y) % a == 0
  {
    assert x == a * (x / a) && y == a * (y / a);
    UniqueQuotient(a, (x + y) / a, (x + y) % a, x / a + y / a, 0);
  }

  // The wrap-around test is sound: a request is refused exactly when its true rounded size does not
  // fit in the heap, and an accepted size is aligned, large enough and at least MIN_SIZE_ALIGNED.
  lemma RoundSizeExact(c: Config, sizeIn: MemSize)
    requires c.Valid()
    ensures RoundSize(c, sizeIn).Invalid? <==> AlignUp(c.align, sizeIn) > c.memSize
    ensures var r := RoundSize(c, sizeIn);
            r.Rounded? ==>
              && sizeIn <= r.size <= c.memSize && c.minSize <= r.size
              && r.size == if AlignUp(c.align, sizeIn) < c.minSize then c.minSize else AlignUp(c.align, sizeIn)
  {
    hide AlignUp;
  }

  lemma RoundSizeAligned(c: Config, sizeIn: MemSize)
    requires c.Valid() && c.Aligned()
    ensures RoundSize(c, sizeIn).Rounded? ==> RoundSize(c, sizeIn).size % c.align == 0
  {
    AlignUpIsMultiple(c.align, sizeIn);
  }

  // ---------------------------------------------------------------- first fit

  predicate Fits(c: Config, b: Blocks, k: nat, size: nat)
    requires b.WellFormed() && k < |b.used|
  {
    !b.used[k] && DataSize(c, b, k) >= size
  }

  // Lowest block at or after i able to hold size, |b.used| if there is none.
  function FirstFit(c: Config, b: Blocks, size: nat, i: nat): (k: nat)
    requires b.WellFormed() && i <= |b.used|
    ensures i <= k <= |b.used|
    ensures k < |b.used| ==> Fits(c, b, k, size)
    ensures forall j :: i <= j < k ==> !Fits(c, b, j, size)
    decreases |b.used| - i
  {
    if i == |b.used| then i
    else if Fits(c, b, i, size) then i
    else FirstFit(c, b, size, i + 1)
  }

  lemma FirstFitIs(c: Config, b: Blocks, size: nat, k: nat)
    requires b.WellFormed() && k <= |b.used| && (k < |b.used| ==> Fits(c, b, k, size))
    requires forall j :: 0 <= j < k ==> !Fits(c, b, j, size)
    ensures FirstFit(c, b, size, 0) == k
  {
  }

  // Starting at the lowest free block instead of the first block skips no candidate.
  lemma {:induction false} FirstFitSkipsUsed(c: Config, b: Blocks, size: nat, i: nat, low: nat)
    requires b.WellFormed() && i <= low <= |b.used|
    requires forall j :: i <= j < low ==> b.used[j]
    ensures FirstFit(c, b, size, i) == FirstFit(c, b, size, low)
    decreases low - i
  {
    if i < low {
      FirstFitSkipsUsed(c, b, size, i + 1, low);
    }
  }

  lemma LastIsEnd(c: Config, b: Blocks, i: nat)
    requires Valid(c, b) && i <= |b.used|
    ensures b.starts[i] <= c.memSize && (i < |b.used| <==> b.starts[i] < c.memSize)
  {
  }

  // The bound of mem_malloc's scan cuts off no candidate.
  lemma NoRoomAbove(c: Config, b: Blocks, size: nat, i: nat)
    requires Valid(c, b) && i <= |b.used| && c.memSize <= b.starts[i] + size
    ensures forall j :: i <= j < |b.used| ==> !Fits(c, b, j, size)
  {
    forall j | i <= j < |b.used|
      ensures !Fits(c, b, j, size)
    {
      assert b.starts[i] <= b.starts[j] && b.starts[j + 1] <= c.memSize;
    }
  }

  // ---------------------------------------------------------------- operations

  // A free block starting at offset at is cut off the end of block k.
  function Split(b: Blocks, k: nat, at: nat): (r: Blocks)
    requires b.WellFormed() && k < |b.used|
    ensures r.WellFormed()
  {
    Blocks(b.starts[..k + 1] + [at] + b.starts[k + 1..], b.used[..k + 1] + [false] + b.used[k + 1..])
  }

  // Block k becomes used; what is left over becomes a free block if a header and MIN_SIZE fit.
  function Alloc(c: Config, b: Blocks, k: nat, size: nat): (r: Blocks)
    requires b.WellFormed() && k < |b.used|
    ensures r.WellFormed()
  {
    var b' := Blocks(b.starts, b.used[k := true]);
    if DataSize(c, b, k) >= size + c.header + c.minSize then Split(b', k, b.starts[k] + c.header + size) else b'
  }

  // Blocks k and k + 1 become one block with the flag of block k.
  function Merge(b: Blocks, k: nat): (r: Blocks)
    requires b.WellFormed() && k + 1 < |b.used|
    ensures r.WellFormed()
  {
    Blocks(b.starts[..k + 1] + b.starts[k + 2..], b.used[..k + 1] + b.used[k + 2..])
  }

  // plug_holes: join block k with a free block behind it, then with a free block before it.
  function PlugForward(b: Blocks, k: nat): (r: Blocks)
    requires b.WellFormed() && k < |b.used|
    ensures r.WellFormed()
  {
    if k + 1 < |b.used| && !b.used[k + 1] then Merge(b, k) else b
  }

  function PlugBackward(b: Blocks, k: nat): (r: Blocks)
    requires b.WellFormed() && k < |b.used|
    ensures r.WellFormed()
  {
    if 0 < k && !b.used[k - 1] then Merge(b, k - 1) else b
  }

  // The index of lfree's block after the first half of plug_holes.
  ghost function ForwardLow(b: Blocks, k: nat, low: nat): nat
    requires b.WellFormed() && k < |b.used|
  {
    if k + 1 < |b.used| && !b.used[k + 1] && low == k + 1 then k else low
  }

  function Release(b: Blocks, k: nat): (r: Blocks)
    requires b.WellFormed() && k < |b.used|
    ensures r.WellFormed()
  {
    PlugBackward(PlugForward(Blocks(b.starts, b.used[k := false]), k), k)
  }

  // The free block behind block k starts at offset at instead.
  function Move(b: Blocks, k: nat, at: nat): (r: Blocks)
    requires b.WellFormed() && k + 1 < |b.used|
    ensures r.WellFormed()
  {
    Blocks(b.starts[k + 1 := at], b.used)
  }

  // mem_trim with an already rounded size.
  function Trim(c: Config, b: Blocks, k: nat, size: nat): (r: Blocks)
    requires b.WellFormed() && k < |b.used|
    ensures r.WellFormed()
  {
    var at := b.starts[k] + c.header + size;
    if size >= DataSize(c, b, k) then b
    else if k + 1 < |b.used| && !b.used[k + 1] then Move(b, k, at)
    else if size + c.header + c.minSize <= DataSize(c, b, k) then Split(b, k, at)
    else b
  }

  lemma TrimOnlyShrinks(c: Config, b: Blocks, k: nat, size: nat)
    requires b.WellFormed() && k < |b.used| && DataSize(c, b, k) <= size
    ensures Trim(c, b, k, size) == b
  {
  }

  // Every LWIP_ASSERT of mem_trim holds: the block does not grow, and no free block is cut off the
  // last block of the heap.
  predicate TrimAsserts(c: Config, b: Blocks, k: nat, size: nat)
    requires b.WellFormed() && k < |b.used|
  {
    size <= DataSize(c, b, k) && !(k + 1 == |b.used| && size + c.header + c.minSize <= DataSize(c, b, k))
  }

  // ---------------------------------------------------------------- which headers an operation changes

  // b' is b with blocks k and k + 1 joined, told by the headers.
  ghost predicate MergedHeaders(b: Blocks, b': Blocks, k: nat) {
    && b.WellFormed() && b'.WellFormed()
    && k + 1 < |b.used| && |b'.used| == |b.used| - 1
    && forall i {:trigger Spelled(b', i)} :: 0 <= i < |b'.used| ==>
         && b'.starts[i] == b.starts[if i <= k then i else i + 1]
         && Spelled(b', i) == (if i < k then Spelled(b, i)
                               else if i == k then Spelled(b, k).(next := Spelled(b, k + 1).next)
                               else if i == k + 1 then Spelled(b, k + 2).(prev := b.starts[k])
                               else Spelled(b, i + 1))
  }

  // The same, told by the blocks as well.
  ghost predicate Merged(b: Blocks, b': Blocks, k: nat) {
    && MergedHeaders(b, b', k)
    && (forall i {:trigger b'.starts[i]} :: 0 <= i <= |b'.used| ==>
          b'.starts[i] == b.starts[if i <= k then i else i + 1])
    && (forall i {:trigger b'.used[i]} :: 0 <= i < |b'.used| ==> b'.used[i] == b.used[if i <= k then i else i + 1])
  }

  lemma MergeIsMerged(b: Blocks, k: nat)
    requires b.WellFormed() && k + 1 < |b.used|
    ensures Merged(b, Merge(b, k), k)
  {
  }

  lemma SplitSpelled(b: Blocks, k: nat, at: nat, i: nat)
    requires b.WellFormed() && k < |b.used| && i <= |b.used|
    ensures Split(b, k, at).starts[i] == if i == k + 1 then at else b.starts[if i <= k then i else i - 1]
    ensures Spelled(Split(b, k, at), i) ==
            if i < k then Spelled(b, i)
            else if i == k then Spelled(b, k).(next := at)
            else if i == k + 1 then Header(b.starts[k + 1], b.starts[k], 0)
            else if i == k + 2 then Spelled(b, k + 1).(prev := at)
            else Spelled(b, i - 1)
  {
  }

  lemma MoveSpelled(b: Blocks, k: nat, at: nat, i: nat)
    requires b.WellFormed() && k + 1 < |b.used| && i < |b.used| && !b.used[k + 1]
    ensures Move(b, k, at).starts[i] == if i == k + 1 then at else b.starts[i]
    ensures Spelled(Move(b, k, at), i) ==
            if i == k then Spelled(b, k).(next := at)
            else if i == k + 1 then Header(b.starts[k + 2], b.starts[k], 0)
            else if i == k + 2 then Spelled(b, k + 2).(prev := at)
            else Spelled(b, i)
  {
  }

  // Where lfree's block ends up when a block is cut off behind block k, and how the cut compares to it.
  lemma SplitStart(c: Config, b: Blocks, k: nat, at: nat, low: nat)
    requires c.Valid() && Tiled(c, b) && k < |b.used| && low <= |b.used|
    requires b.starts[k] < at < b.starts[k + 1]
    ensures at < b.starts[low] <==> k < low
    ensures Split(b, k, at).starts[k + 1] == at && !Split(b, k, at).used[k + 1]
    ensures low <= k ==> Split(b, k, at).starts[low] == b.starts[low] && Split(b, k, at).used[low] == b.used[low]
    ensures forall i :: 0 <= i <= k ==> Split(b, k, at).used[i] == b.used[i]
  {
  }

  // ---------------------------------------------------------------- order of blocks

  // Moving a free block changes one start only.
  lemma MoveStarts(b: Blocks, k: nat, at: nat)
    requires b.WellFormed() && k + 1 < |b.used|
    ensures Move(b, k, at).used == b.used
    ensures forall i :: 0 <= i <= |b.used| ==> Move(b, k, at).starts[i] == if i == k + 1 then at else b.starts[i]
  {
  }

  // Comparing block pointers compares block indices.
  lemma StartsCompare(c: Config, b: Blocks, i: nat, j: nat)
    requires c.Valid() && Tiled(c, b) && i <= |b.used| && j <= |b.used|
    ensures b.starts[i] < b.starts[j] <==> i < j
    ensures b.starts[i] == b.starts[j] <==> i == j
  {
  }

  ghost predicate InHeader(c: Config, starts: seq<nat>, x: nat) {
    exists k :: 0 <= k < |starts| && starts[k] <= x < starts[k] + c.header
  }

  // Live data never overlaps a header.
  lemma DataIsNotHeader(c: Config, b: Blocks, x: nat)
    requires Tiled(c, b) && InLive(c, b, x)
    ensures x < c.memSize && !InHeader(c, b.starts, x)
  {
  }

  lemma DataIsNeverHeader(c: Config, b: Blocks)
    requires Tiled(c, b)
    ensures forall x: nat :: InLive(c, b, x) ==> !InHeader(c, b.starts, x)
  {
    forall x: nat | InLive(c, b, x)
      ensures !InHeader(c, b.starts, x)
    {
      DataIsNotHeader(c, b, x);
    }
  }

  // ---------------------------------------------------------------- every operation keeps the invariant

  lemma InitialValid(c: Config)
    requires c.Valid()
    ensures Valid(c, Initial(c))
  {
  }

  // b' is b with a free block cut off behind block k at offset at.
  ghost predicate IsSplit(b: Blocks, b': Blocks, k: nat, at: nat) {
    && b.WellFormed() && b'.WellFormed() && k < |b.used| && |b'.used| == |b.used| + 1
    && (forall i {:trigger b'.starts[i]} :: 0 <= i <= |b'.used| ==>
          b'.starts[i] == if i == k + 1 then at else b.starts[if i <= k then i else i - 1])
    && (forall i {:trigger b'.used[i]} :: 0 <= i < |b'.used| ==>
          b'.used[i] == (i != k + 1 && b.used[if i <= k then i else i - 1]))
  }

  lemma SplitIsSplit(b: Blocks, k: nat, at: nat)
    requires b.WellFormed() && k < |b.used|
    ensures IsSplit(b, Split(b, k, at), k, at)
  {
  }

  lemma SplitKeepsHeaders(c: Config, b: Blocks, b': Blocks, k: nat, at: nat)
    requires IsSplit(b, b', k, at)
    ensures forall x: nat :: InHeader(c, b.starts, x) ==> InHeader(c, b'.starts, x)
  {
    forall x: nat | InHeader(c, b.starts, x)
      ensures InHeader(c, b'.starts, x)
    {
      var i :| 0 <= i < |b.starts| && b.starts[i] <= x < b.starts[i] + c.header;
      assert b'.starts[if i <= k then i else i + 1] == b.starts[i];
    }
  }

  lemma SplitTiled(c: Config, b: Blocks, b': Blocks, k: nat, at: nat)
    requires c.Valid() && Tiled(c, b) && Coalesced(b) && IsSplit(b, b', k, at) && b.used[k]
    requires k + 1 < |b.used| ==> b.used[k + 1]
    requires b.starts[k] + c.header + c.minSize <= at && at + c.header + c.minSize <= b.starts[k + 1]
    ensures Tiled(c, b') && Coalesced(b')
  {
    forall i, j | 0 <= i < j <= |b'.used|
      ensures b'.starts[i] + c.header + c.minSize <= b'.starts[j]
    {
      SplitOrdered(c, b, b', k, at, i, j);
    }
  }

  lemma SplitOrdered(c: Config, b: Blocks, b': Blocks, k: nat, at: nat, i: nat, j: nat)
    requires c.Valid() && Tiled(c, b) && IsSplit(b, b', k, at) && i < j <= |b'.used|
    requires b.starts[k] + c.header + c.minSize <= at && at + c.header + c.minSize <= b.starts[k + 1]
    ensures b'.starts[i] + c.header + c.minSize <= b'.starts[j]
  {
    if i == k + 1 {
      assert b.starts[k + 1] <= b.starts[j - 1];
    } else if j == k + 1 {
      assert b.starts[i] <= b.starts[k];
    } else {
      assert b.starts[if i <= k then i else i - 1] + c.header + c.minSize <= b.starts[if j <= k then j else j - 1];
    }
  }

  lemma UsedFlagTiled(c: Config, b: Blocks, k: nat, v: bool)
    requires b.WellFormed() && Tiled(c, b) && k < |b.used|
    ensures Tiled(c, Blocks(b.starts, b.used[k := v]))
  {
  }

  lemma AllocValid(c: Config, b: Blocks, k: nat, size: nat)
    requires Valid(c, b) && k < |b.used| && Fits(c, b, k, size)
    requires c.minSize <= size
    ensures Valid(c, Alloc(c, b, k, size))
  {
    hide Split, IsSplit;
    var b' := Blocks(b.starts, b.used[k := true]);
    assert Tiled(c, b') && Coalesced(b');
    if DataSize(c, b, k) >= size + c.header + c.minSize {
      hide Tiled;
      var at := b.starts[k] + c.header + size;
      SplitIsSplit(b', k, at);
      SplitTiled(c, b', Split(b', k, at), k, at);
    }
  }

  lemma MergedTiled(c: Config, b: Blocks, b': Blocks, k: nat)
    requires c.Valid() && Tiled(c, b) && Merged(b, b', k)
    ensures Tiled(c, b')
    ensures forall x: nat :: InHeader(c, b'.starts, x) ==> InHeader(c, b.starts, x)
  {
  }

  // The two halves of plug_holes.
  ghost predicate Forward(b: Blocks, b': Blocks, k: nat)
    requires b.WellFormed() && k < |b.used|
  {
    if k + 1 < |b.used| && !b.used[k + 1] then Merged(b, b', k) else b' == b
  }

  ghost predicate Backward(b: Blocks, b': Blocks, k: nat)
    requires b.WellFormed() && k < |b.used|
  {
    if 0 < k && !b.used[k - 1] then Merged(b, b', k - 1) else b' == b
  }

  // b0, b1 and b2 are the heaps between the writes of mem_free on block k of b, the last one the result.
  ghost predicate ReleaseSteps(c: Config, b: Blocks, k: nat, b0: Blocks, b1: Blocks, b2: Blocks) {
    && Valid(c, b) && k < |b.used| && b.used[k]
    && b0 == Blocks(b.starts, b.used[k := false])
    && b1.WellFormed() && k < |b1.used| && !b1.used[k]
    && Forward(b0, b1, k) && Backward(b1, b2, k)
    && Tiled(c, b0) && Tiled(c, b1) && Valid(c, b2)
    && forall x: nat :: InHeader(c, b1.starts, x) ==> InHeader(c, b.starts, x)
  }

  lemma ReleaseInSteps(c: Config, b: Blocks, k: nat) returns (b0: Blocks, b1: Blocks, b2: Blocks)
    requires Valid(c, b) && k < |b.used| && b.used[k]
    ensures b2 == Release(b, k) && ReleaseSteps(c, b, k, b0, b1, b2)
  {
    hide Merge, InHeader, Forward, Backward, Coalesced;
    b0 := Blocks(b.starts, b.used[k := false]);
    assert Tiled(c, b0);
    hide Tiled;
    b1 := PlugForwardStep(c, b0, k);
    b2 := PlugBackwardStep(c, b1, k);
    hide PlugForward, PlugBackward;
    StepsCoalesced(b, k, b0, b1, b2);
  }

  lemma PlugForwardStep(c: Config, b: Blocks, k: nat) returns (b': Blocks)
    requires c.Valid() && Tiled(c, b) && k < |b.used|
    ensures b' == PlugForward(b, k) && Tiled(c, b') && k < |b'.used| && b'.used[k] == b.used[k]
    ensures Forward(b, b', k)
    ensures forall x: nat :: InHeader(c, b'.starts, x) ==> InHeader(c, b.starts, x)
  {
    b' := PlugForward(b, k);
    if k + 1 < |b.used| && !b.used[k + 1] {
      MergeIsMerged(b, k);
      MergedTiled(c, b, b', k);
    }
  }

  lemma PlugBackwardStep(c: Config, b: Blocks, k: nat) returns (b': Blocks)
    requires c.Valid() && Tiled(c, b) && k < |b.used|
    ensures b' == PlugBackward(b, k) && Tiled(c, b')
    ensures Backward(b, b', k)
  {
    b' := PlugBackward(b, k);
    if 0 < k && !b.used[k - 1] {
      MergeIsMerged(b, k - 1);
      MergedTiled(c, b, b', k - 1);
    }
  }

  // After both halves of plug_holes no two neighbours are free.
  lemma StepsCoalesced(b: Blocks, k: nat, b0: Blocks, b1: Blocks, b2: Blocks)
    requires b.WellFormed() && Coalesced(b) && k < |b.used| && b.used[k]
    requires b0 == Blocks(b.starts, b.used[k := false]) && b1.WellFormed() && k < |b1.used|
    requires Forward(b0, b1, k) && Backward(b1, b2, k)
    ensures Coalesced(b2)
  {
    assert forall i, j :: 0 <= i && i + 1 == j < |b1.used| && j != k ==> b1.used[i] || b1.used[j];
  }

  lemma ReleaseValid(c: Config, b: Blocks, k: nat)
    requires Valid(c, b) && k < |b.used| && b.used[k]
    ensures Valid(c, Release(b, k))
  {
    var b0, b1, b2 := ReleaseInSteps(c, b, k);
  }

  lemma MergedLive(c: Config, b: Blocks, b': Blocks, k: nat, x: nat)
    requires Merged(b, b', k) && !b.used[k] && InLive(c, b', x)
    ensures InLive(c, b, x)
  {
    var i :| 0 <= i < |b'.used| && b'.used[i] && b'.starts[i] + c.header <= x < b'.starts[i + 1];
    var j := if i <= k then i else i + 1;
    assert b.used[j] && b.starts[j] == b'.starts[i] && b.starts[j + 1] == b'.starts[i + 1];
  }

  // Freeing a block makes no new address live.
  lemma ReleaseShrinksLive(c: Config, b: Blocks, k: nat, x: nat)
    requires Valid(c, b) && k < |b.used| && b.used[k]
    requires InLive(c, Release(b, k), x)
    ensures InLive(c, b, x)
  {
    hide InLive, InHeader, Tiled, Coalesced, Merge, MergedHeaders, Release;
    var b0, b1, b2 := ReleaseInSteps(c, b, k);
    if b2 != b1 {
      MergedLive(c, b1, b2, k - 1, x);
    }
    if b1 != b0 {
      MergedLive(c, b0, b1, k, x);
    }
    FreedLive(c, b, k, x);
  }

  lemma FreedLive(c: Config, b: Blocks, k: nat, x: nat)
    requires b.WellFormed() && k < |b.used| && InLive(c, Blocks(b.starts, b.used[k := false]), x)
    ensures InLive(c, b, x)
  {
  }

  lemma ReleasedDataIsNotHeader(c: Config, b: Blocks, k: nat)
    requires Valid(c, b) && k < |b.used| && b.used[k]
    ensures forall x: nat :: InLive(c, Release(b, k), x) ==> !InHeader(c, b.starts, x)
  {
    forall x: nat | InLive(c, Release(b, k), x)
      ensures !InHeader(c, b.starts, x)
    {
      ReleaseShrinksLive(c, b, k, x);
      DataIsNotHeader(c, b, x);
    }
  }

  // Where the index of lfree's block ends up: all blocks below lfree stay in use, and lfree is moved
  // only down, and then to the lowest free block.
  lemma ReleaseLow(c: Config, b: Blocks, k: nat, b0: Blocks, b1: Blocks, b2: Blocks, low: nat) returns (low': nat)
    requires ReleaseSteps(c, b, k, b0, b1, b2) && low <= |b.used|
    requires forall i :: 0 <= i < low ==> b.used[i]
    ensures var l1 := ForwardLow(b0, k, if k < low then k else low);
            && l1 <= |b1.used| && b1.starts[l1] == b0.starts[l1]
            && low' <= |b2.used|
            && b2.starts[low'] == b1.starts[if l1 == k && 0 < k && !b1.used[k - 1] then k - 1 else l1]
    ensures forall i :: 0 <= i < low' ==> b2.used[i]
    ensures low == |b.used| || !b.used[low] ==> low' == |b2.used| || !b2.used[low']
    ensures low' == |b2.used| || !b2.used[low'] || b2.starts[low'] == b.starts[low]
  {
    hide Tiled, Coalesced, InHeader, Spelled;
    low' := if k < low then k else low;
  }

  lemma MoveTiled(c: Config, b: Blocks, k: nat, at: nat)
    requires c.Valid() && Tiled(c, b) && k + 1 < |b.used|
    requires b.starts[k] + c.header + c.minSize <= at <= b.starts[k + 1]
    ensures Tiled(c, Move(b, k, at))
  {
  }

  lemma TrimValid(c: Config, b: Blocks, k: nat, size: nat)
    requires Valid(c, b) && k < |b.used| && b.used[k]
    requires c.minSize <= size
    ensures Valid(c, Trim(c, b, k, size))
  {
    hide Split, IsSplit, Tiled;
    if size < DataSize(c, b, k) {
      if k + 1 < |b.used| && !b.used[k + 1] {
        MoveTiled(c, b, k, b.starts[k] + c.header + size);
      } else if size + c.header + c.minSize <= DataSize(c, b, k) {
        var at := b.starts[k] + c.header + size;
        SplitIsSplit(b, k, at);
        SplitTiled(c, b, Split(b, k, at), k, at);
      }
    }
  }

  lemma Neighbours(b: Blocks, i: nat)
    requires b.WellFormed() && Coalesced(b) && 0 < i < |b.used|
    ensures b.used[i - 1] || b.used[i]
  {
  }

  // ---------------------------------------------------------------- every operation keeps blocks aligned

  lemma InitialAligned(c: Config)
    requires c.Valid() && c.Aligned()
    ensures AllAligned(c, Initial(c))
  {
    assert 0 % c.align == 0;
  }

  lemma NewStartAligned(c: Config, b: Blocks, b': Blocks, k: nat, size: nat)
    requires c.Valid() && c.Aligned() && AllAligned(c, b) && k < |b.starts| && size % c.align == 0
    requires forall p :: p in b'.starts ==> p in b.starts || p == b.starts[k] + c.header + size
    ensures AllAligned(c, b')
  {
    assert b.starts[k] in b.starts;
    AlignedSum(c.align, b.starts[k], c.header);
    AlignedSum(c.align, b.starts[k] + c.header, size);
  }

  lemma AllocAligned(c: Config, b: Blocks, k: nat, size: nat)
    requires c.Valid() && c.Aligned() && b.WellFormed() && AllAligned(c, b) && k < |b.used| && size % c.align == 0
    ensures AllAligned(c, Alloc(c, b, k, size))
  {
    NewStartAligned(c, b, Alloc(c, b, k, size), k, size);
  }

  lemma TrimAligned(c: Config, b: Blocks, k: nat, size: nat)
    requires c.Valid() && c.Aligned() && b.WellFormed() && AllAligned(c, b) && k < |b.used| && size % c.align == 0
    ensures AllAligned(c, Trim(c, b, k, size))
  {
    NewStartAligned(c, b, Trim(c, b, k, size), k, size);
  }

  lemma MergeAligned(c: Config, b: Blocks, k: nat)
    requires 0 < c.align && b.WellFormed() && AllAligned(c, b) && k + 1 < |b.used|
    ensures AllAligned(c, Merge(b, k))
  {
    assert forall p :: p in Merge(b, k).starts ==> p in b.starts;
  }

  lemma ReleaseAligned(c: Config, b: Blocks, k: nat)
    requires 0 < c.align && b.WellFormed() && AllAligned(c, b) && k < |b.used|
    ensures AllAligned(c, Release(b, k))
  {
    var b0 := Blocks(b.starts, b.used[k := false]);
    if k + 1 < |b0.used| && !b0.used[k + 1] {
      MergeAligned(c, b0, k);
    }
    var b1 := PlugForward(b0, k);
    if 0 < k && !b1.used[k - 1] {
      MergeAligned(c, b1, k - 1);
    }
  }

  // Conservation: once no block is live, coalescing has rebuilt mem_init's single free block.
  lemma NoLiveBlockIsInitial(c: Config, b: Blocks)
    requires Valid(c, b)
    requires forall k :: 0 <= k < |b.used| ==> !b.used[k]
    ensures b == Initial(c)
  {
    if 1 < |b.used| {
      Neighbours(b, 1);
    }
  }
}
