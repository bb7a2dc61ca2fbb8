/**
 * The heap allocator of mem.c as a chain of blocks: first-fit allocation with splitting, freeing with
 * coalescing on both sides, shrinking, and the hint where the lowest free block is.  The allocator on
 * the byte array, with headers stored in the array, is HeapMemory.Ram.
 */
module Heap {
  const MEM_SIZE := 10000
  const ALIGNMENT := 2
  const U16 := 0x1_0000

  /** sizeof(struct mem): next, prev and used, 16 bits each. */
  const HEADER := 6
  const MIN_SIZE := 12

  /** A block from its header at off up to the next header. */
  datatype Block = Block(off: int, used: bool)

  /** The blocks in the order of their addresses, and the offset lfree points to. */
  datatype State = State(blocks: seq<Block>, lfree: int) {
    /** Where the block at index i ends: at the next header, or at the end of memory. */
    function End(i: nat): int
      requires i < |blocks|
    {
      if i + 1 < |blocks| then blocks[i + 1].off else MEM_SIZE
    }

    function Room(i: nat): int
      requires i < |blocks|
    {
      End(i) - blocks[i].off - HEADER
    }
  }

  const INITIAL := State([Block(0, false)], 0)

  /** The result of an allocation: the offset of the memory handed out. */
  datatype Pointer = Null | At(off: int)

  /** The request rounded up for alignment, in the 16 bits of mem_size_t. */
  function Rounded(size: nat): nat {
    if size % ALIGNMENT != 0 then (size + ALIGNMENT - (size + HEADER) % ALIGNMENT) % U16 else size
  }

  /** A free block with room for the request and for the header of what is left. */
  predicate Fits(h: State, i: nat, n: nat)
    requires i < |h.blocks|
  {
    !h.blocks[i].used && h.Room(i) >= n + HEADER
  }

  /** The first block at or after index i that fits, or the number of blocks. */
  function FirstFit(h: State, i: nat, n: nat): (k: nat)
    requires i <= |h.blocks|
    ensures i <= k <= |h.blocks|
    ensures forall j :: i <= j < k ==> !Fits(h, j, n)
    ensures k < |h.blocks| ==> Fits(h, k, n)
    decreases |h.blocks| - i
  {
    if i == |h.blocks| || Fits(h, i, n) then i else FirstFit(h, i + 1, n)
  }

  /** The index of the first block at or above an offset. */
  function Find(blocks: seq<Block>, off: int): (i: nat)
    ensures i <= |blocks|
    ensures forall k :: 0 <= k < i ==> blocks[k].off < off
    ensures i < |blocks| ==> off <= blocks[i].off
  {
    if blocks == [] || off <= blocks[0].off then 0 else 1 + Find(blocks[1..], off)
  }

  /** The chain without the header at index k. */
  function RemoveAt(blocks: seq<Block>, k: nat): (r: seq<Block>)
    requires k < |blocks|
    ensures |r| == |blocks| - 1
    ensures forall j :: 0 <= j < |r| ==> r[j] == blocks[if j < k then j else j + 1]
  {
    blocks[..k] + blocks[k + 1..]
  }

  /** The chain with a new free header inside block i. */
  function SplitAt(blocks: seq<Block>, i: nat, used: bool, rest: int): (r: seq<Block>)
    requires i < |blocks|
    ensures |r| == |blocks| + 1
    ensures forall j :: 0 <= j < i ==> r[j] == blocks[j]
    ensures r[i] == Block(blocks[i].off, used) && r[i + 1] == Block(rest, false)
    ensures forall j :: i + 1 < j < |r| ==> r[j] == blocks[j - 1]
  {
    blocks[..i] + [Block(blocks[i].off, used), Block(rest, false)] + blocks[i + 1..]
  }

  /** Takes n bytes off the front of free block i. */
  function Take(h: State, i: nat, n: nat): State
    requires i < |h.blocks|
  {
    var off, rest := h.blocks[i].off, h.blocks[i].off + HEADER + n;
    State(SplitAt(h.blocks, i, true, rest),
          if h.lfree == off then rest else h.lfree)
  }

  /** The block mem_malloc takes, if any. */
  function Chosen(h: State, n: nat): nat {
    FirstFit(h, Find(h.blocks, h.lfree), n)
  }

  predicate Refused(h: State, size: nat) {
    size == 0 || Rounded(size) > MEM_SIZE || Chosen(h, Rounded(size)) == |h.blocks|
  }

  /** mem_malloc. */
  function Malloc(h: State, size: nat): (State, Pointer) {
    if Refused(h, size) then (h, Null)
    else
      var i := Chosen(h, Rounded(size));
      (Take(h, i, Rounded(size)), At(h.blocks[i].off + HEADER))
  }

  /** plug_holes, forward: a free successor becomes part of block i. */
  function MergeNext(h: State, i: nat): State
    requires i < |h.blocks|
  {
    if i + 1 < |h.blocks| && !h.blocks[i + 1].used
    then State(RemoveAt(h.blocks, i + 1),
               if h.lfree == h.blocks[i + 1].off then h.blocks[i].off else h.lfree)
    else h
  }

  /** plug_holes, backward: block i becomes part of a free predecessor. */
  function MergePrev(h: State, i: nat): State
    requires i < |h.blocks|
  {
    if i > 0 && !h.blocks[i - 1].used
    then State(RemoveAt(h.blocks, i),
               if h.lfree == h.blocks[i].off then h.blocks[i - 1].off else h.lfree)
    else h
  }

  function PlugHoles(h: State, i: nat): State
    requires i < |h.blocks|
  {
    MergePrev(MergeNext(h, i), i)
  }

  /** Block i marked free, before its holes are plugged. */
  function MarkFree(h: State, i: nat): State
    requires i < |h.blocks|
  {
    var off := h.blocks[i].off;
    State(h.blocks[i := Block(off, false)], if off < h.lfree then off else h.lfree)
  }

  /** mem_free of the block with index i. */
  function Free(h: State, i: nat): State
    requires i < |h.blocks|
  {
    PlugHoles(MarkFree(h, i), i)
  }

  /** What mem_realloc cuts off: a new free block after n bytes of block i. */
  function Split(h: State, i: nat, n: nat): State
    requires i < |h.blocks|
  {
    State(SplitAt(h.blocks, i, h.blocks[i].used, h.blocks[i].off + HEADER + n), h.lfree)
  }

  predicate Shrinks(h: State, i: nat, size: nat)
    requires i < |h.blocks|
  {
    Rounded(size) <= MEM_SIZE && Rounded(size) + HEADER + MIN_SIZE < h.Room(i)
  }

  /** mem_realloc of the block with index i; it never grows a block. */
  function Realloc(h: State, i: nat, size: nat): State
    requires i < |h.blocks|
  {
    if Shrinks(h, i, size) then PlugHoles(Split(h, i, Rounded(size)), i + 1) else h
  }

  // ---------------------------------------------------------------------------------------------
  // The invariant

  /** The blocks tile the memory: they start at 0, come in order, and each has room for its header. */
  ghost predicate Tiles(blocks: seq<Block>) {
    && blocks != []
    && blocks[0].off == 0
    && (forall i, j :: 0 <= i < j < |blocks| ==> blocks[i].off + HEADER <= blocks[j].off)
    && (forall i :: 0 <= i < |blocks| ==> blocks[i].off + HEADER <= MEM_SIZE)
  }

  /** No two neighbours are both free, except perhaps at the given place. */
  ghost predicate CoalescedBut(blocks: seq<Block>, hole: int) {
    forall i :: 0 <= i < |blocks| - 1 && i != hole - 1 && i != hole ==> blocks[i].used || blocks[i + 1].used
  }

  ghost predicate Coalesced(blocks: seq<Block>) {
    forall i :: 0 <= i < |blocks| - 1 ==> blocks[i].used || blocks[i + 1].used
  }

  ghost predicate IsFree(blocks: seq<Block>, off: int) {
    exists i :: 0 <= i < |blocks| && blocks[i] == Block(off, false)
  }

  /** The invariant of every run: lfree is a free block, though maybe not the lowest. */
  ghost predicate Ok(h: State) {
    Tiles(h.blocks) && Coalesced(h.blocks) && IsFree(h.blocks, h.lfree)
  }

  /** The hint is exact. */
  ghost predicate Lowest(h: State) {
    forall i :: 0 <= i < |h.blocks| && !h.blocks[i].used ==> h.lfree <= h.blocks[i].off
  }

  /** Block i is used, and its memory is the len bytes at p. */
  predicate IsPiece(h: State, i: nat, p: int, len: int)
    requires i < |h.blocks|
  {
    h.blocks[i].used && p == h.blocks[i].off + HEADER && len == h.Room(i)
  }

  /** len bytes at offset p are allocated. */
  ghost predicate Live(h: State, p: int, len: int) {
    exists i: nat :: i < |h.blocks| && IsPiece(h, i, p, len)
  }

  // ---------------------------------------------------------------------------------------------
  // Lemmas

  lemma FindIs(blocks: seq<Block>, i: nat)
    requires Tiles(blocks) && i < |blocks|
    ensures Find(blocks, blocks[i].off) == i
  {
    FindAt(blocks, blocks[i].off, i);
  }

  lemma {:induction false} FindAt(blocks: seq<Block>, off: int, i: nat)
    requires i <= |blocks|
    requires forall k :: 0 <= k < i ==> blocks[k].off < off
    requires i < |blocks| ==> off <= blocks[i].off
    ensures Find(blocks, off) == i
  {
    if i > 0 {
      forall k | 0 <= k < i - 1 ensures blocks[1..][k].off < off {
        assert blocks[1..][k] == blocks[k + 1];
      }
      FindAt(blocks[1..], off, i - 1);
    }
  }

  /** The hint is the offset of a free block, at the index found for it. */
  lemma HintIsFree(h: State)
    requires Ok(h)
    ensures var i := Find(h.blocks, h.lfree); i < |h.blocks| && h.blocks[i] == Block(h.lfree, false)
  {
    var i :| 0 <= i < |h.blocks| && h.blocks[i] == Block(h.lfree, false);
    FindIs(h.blocks, i);
  }

  ghost predicate Ordered(blocks: seq<Block>) {
    forall i, j :: 0 <= i < j < |blocks| ==> blocks[i].off + HEADER <= blocks[j].off
  }

  lemma SplitOrdered(blocks: seq<Block>, i: nat, used: bool, rest: int)
    requires Ordered(blocks) && i < |blocks| && blocks[i].off + HEADER <= rest
    requires i + 1 < |blocks| ==> rest + HEADER <= blocks[i + 1].off
    ensures Ordered(SplitAt(blocks, i, used, rest))
  {
    hide SplitAt;
    var r := SplitAt(blocks, i, used, rest);
    forall j, k | 0 <= j < k < |r| ensures r[j].off + HEADER <= r[k].off {
      if k == i + 1 && j < i {
        assert blocks[j].off + HEADER <= blocks[i].off;
      } else if j == i + 1 && k > i + 2 {
        assert blocks[i + 1].off + HEADER <= blocks[k - 1].off;
      }
    }
  }

  /** Splitting a block in two keeps the tiling. */
  lemma SplitTiles(h: State, i: nat, n: nat, used: bool)
    requires Tiles(h.blocks) && i < |h.blocks| && n + HEADER <= h.Room(i)
    ensures Tiles(SplitAt(h.blocks, i, used, h.blocks[i].off + HEADER + n))
  {
    hide SplitAt;
    var b := h.blocks;
    SplitOrdered(b, i, used, b[i].off + HEADER + n);
    assert i + 1 < |b| ==> b[i + 1].off + HEADER <= MEM_SIZE;
  }

  /** Removing a header other than the first keeps the tiling. */
  lemma RemoveTiles(blocks: seq<Block>, k: nat)
    requires Tiles(blocks) && 0 < k < |blocks|
    ensures Tiles(RemoveAt(blocks, k))
  {
    hide RemoveAt;
  }

  /** A free block other than the removed one stays free. */
  lemma RemoveFree(blocks: seq<Block>, k: nat, off: int)
    requires k < |blocks| && blocks[k].off != off && IsFree(blocks, off)
    ensures IsFree(RemoveAt(blocks, k), off)
  {
    hide RemoveAt;
    var i :| 0 <= i < |blocks| && blocks[i] == Block(off, false);
    assert RemoveAt(blocks, k)[if i < k then i else i - 1] == Block(off, false);
  }

  /** A free block other than the split one stays free. */
  lemma SplitFree(blocks: seq<Block>, i: nat, used: bool, rest: int, off: int)
    requires i < |blocks| && IsFree(blocks, off)
    ensures IsFree(SplitAt(blocks, i, used, rest), rest)
    ensures blocks[i].off != off ==> IsFree(SplitAt(blocks, i, used, rest), off)
  {
    hide SplitAt;
    var r := SplitAt(blocks, i, used, rest);
    assert r[i + 1] == Block(rest, false);
    if blocks[i].off != off {
      var k :| 0 <= k < |blocks| && blocks[k] == Block(off, false);
      assert r[if k < i then k else k + 1] == Block(off, false);
    }
  }

  lemma TakeKeeps(h: State, i: nat, n: nat)
    requires Ok(h) && i < |h.blocks| && Fits(h, i, n)
    ensures Ok(Take(h, i, n))
    ensures Lowest(h) ==> Lowest(Take(h, i, n))
  {
    hide SplitAt;
    hide Tiles;
    hide IsFree;
    SplitTiles(h, i, n, true);
    SplitFree(h.blocks, i, true, h.blocks[i].off + HEADER + n, h.lfree);
    assert Lowest(h) ==> Lowest(Take(h, i, n)) by { if Lowest(h) { TakeLowest(h, i, n); } }
  }

  lemma TakeLowest(h: State, i: nat, n: nat)
    requires Tiles(h.blocks) && i < |h.blocks| && !h.blocks[i].used && Lowest(h)
    requires n + HEADER <= h.Room(i)
    ensures Lowest(Take(h, i, n))
  {
    hide SplitAt;
    var h', rest := Take(h, i, n), h.blocks[i].off + HEADER + n;
    forall j | 0 <= j < |h'.blocks| && !h'.blocks[j].used ensures h'.lfree <= h'.blocks[j].off {
      if j < i {
        assert h.blocks[j].off + HEADER <= h.blocks[i].off;
      } else if j > i + 1 {
        assert j - 1 == i + 1 || h.blocks[i + 1].off + HEADER <= h.blocks[j - 1].off;
      }
    }
  }

  /** Allocation keeps the invariant, and keeps the hint exact. */
  lemma MallocKeeps(h: State, size: nat)
    requires Ok(h)
    ensures Ok(Malloc(h, size).0)
    ensures Lowest(h) ==> Lowest(Malloc(h, size).0)
  {
    if !Refused(h, size) {
      TakeKeeps(h, Chosen(h, Rounded(size)), Rounded(size));
    }
  }

  /** Plugging the holes around block i makes the chain coalesced again. */
  lemma PlugKeeps(h: State, i: nat)
    requires Tiles(h.blocks) && IsFree(h.blocks, h.lfree)
    requires i < |h.blocks| && !h.blocks[i].used && CoalescedBut(h.blocks, i)
    ensures Ok(PlugHoles(h, i))
    ensures Lowest(h) ==> Lowest(PlugHoles(h, i))
  {
    MergeNextKeeps(h, i);
    MergePrevKeeps(MergeNext(h, i), i);
  }

  lemma DistinctOffsets(blocks: seq<Block>, i: nat, k: nat)
    requires Tiles(blocks) && i < |blocks| && k < |blocks| && i != k
    ensures blocks[i].off != blocks[k].off
  {
  }

  lemma MergeNextKeeps(h: State, i: nat)
    requires Tiles(h.blocks) && IsFree(h.blocks, h.lfree)
    requires i < |h.blocks| && !h.blocks[i].used && CoalescedBut(h.blocks, i)
    ensures var h' := MergeNext(h, i);
            && Tiles(h'.blocks) && IsFree(h'.blocks, h'.lfree)
            && i < |h'.blocks| && h'.blocks[i] == h.blocks[i]
            && (i + 1 < |h'.blocks| ==> h'.blocks[i + 1].used)
            && CoalescedBut(h'.blocks, i)
            && (Lowest(h) ==> Lowest(h'))
  {
    hide RemoveAt;
    hide Tiles;
    if i + 1 < |h.blocks| && !h.blocks[i + 1].used {
      var h' := MergeNext(h, i);
      RemoveTiles(h.blocks, i + 1);
      DistinctOffsets(h.blocks, i, i + 1);
      assert IsFree(h.blocks, h.blocks[i].off);
      RemoveFree(h.blocks, i + 1, h'.lfree);
      assert Lowest(h) ==> Lowest(h') by { MergeLowest(h, i, i + 1); }
    }
  }

  /** Merging block i + 1 into the free block i moves an exact hint to block i at most. */
  lemma MergeLowest(h: State, i: nat, k: nat)
    requires Tiles(h.blocks) && k == i + 1 < |h.blocks| && !h.blocks[i].used
    ensures Lowest(h) ==>
              Lowest(State(RemoveAt(h.blocks, k), if h.lfree == h.blocks[k].off then h.blocks[i].off else h.lfree))
  {
    hide RemoveAt;
    if Lowest(h) {
      assert h.lfree <= h.blocks[i].off && h.blocks[i].off + HEADER <= h.blocks[k].off;
    }
  }

  lemma MergePrevKeeps(h: State, i: nat)
    requires Tiles(h.blocks) && IsFree(h.blocks, h.lfree)
    requires i < |h.blocks| && !h.blocks[i].used && CoalescedBut(h.blocks, i)
    requires i + 1 < |h.blocks| ==> h.blocks[i + 1].used
    ensures Ok(MergePrev(h, i))
    ensures Lowest(h) ==> Lowest(MergePrev(h, i))
  {
    hide RemoveAt;
    hide Tiles;
    if i > 0 && !h.blocks[i - 1].used {
      var h' := MergePrev(h, i);
      RemoveTiles(h.blocks, i);
      DistinctOffsets(h.blocks, i - 1, i);
      assert IsFree(h.blocks, h.blocks[i - 1].off);
      RemoveFree(h.blocks, i, h'.lfree);
      assert Lowest(h) ==> Lowest(h') by { MergeLowest(h, i - 1, i); }
      assert Coalesced(h'.blocks);
    }
  }

  lemma MarkTiles(blocks: seq<Block>, i: nat)
    requires Tiles(blocks) && i < |blocks|
    ensures Tiles(blocks[i := Block(blocks[i].off, false)])
  {
  }

  lemma MarkFreeKeeps(h: State, i: nat)
    requires Ok(h) && i < |h.blocks|
    ensures var h' := MarkFree(h, i); Tiles(h'.blocks) && IsFree(h'.blocks, h'.lfree) && CoalescedBut(h'.blocks, i)
    ensures Lowest(h) ==> Lowest(MarkFree(h, i))
  {
    MarkTiles(h.blocks, i);
    hide Tiles;
    var h' := MarkFree(h, i);
    var k :| 0 <= k < |h.blocks| && h.blocks[k] == Block(h.lfree, false);
    assert h'.blocks[if h.blocks[i].off < h.lfree then i else k] == Block(h'.lfree, false);
  }

  /** Freeing keeps the invariant, and keeps the hint exact. */
  lemma FreeKeeps(h: State, i: nat)
    requires Ok(h) && i < |h.blocks| && h.blocks[i].used
    ensures Ok(Free(h, i))
    ensures Lowest(h) ==> Lowest(Free(h, i))
  {
    hide Ok;
    hide Tiles;
    hide IsFree;
    hide Lowest;
    hide CoalescedBut;
    MarkFreeKeeps(h, i);
    PlugKeeps(MarkFree(h, i), i);
  }

  lemma SplitCoalesced(blocks: seq<Block>, i: nat, rest: int)
    requires Coalesced(blocks) && i < |blocks|
    ensures CoalescedBut(SplitAt(blocks, i, blocks[i].used, rest), i + 1)
  {
    hide SplitAt;
    var r := SplitAt(blocks, i, blocks[i].used, rest);
    forall j | 0 <= j < |r| - 1 && j != i && j != i + 1 ensures r[j].used || r[j + 1].used {
      if j > i + 1 {
        assert r[j] == blocks[j - 1] && r[j + 1] == blocks[j];
      }
    }
  }

  /** Shrinking keeps the invariant; whether it keeps the hint exact, ReallocLowest says. */
  lemma ReallocKeeps(h: State, i: nat, size: nat)
    requires Ok(h) && i < |h.blocks| && h.blocks[i].used
    ensures Ok(Realloc(h, i, size))
  {
    hide SplitAt;
    hide Tiles;
    hide IsFree;
    hide Coalesced;
    hide CoalescedBut;
    hide PlugHoles;
    if Shrinks(h, i, size) {
      var n := Rounded(size);
      SplitTiles(h, i, n, true);
      SplitCoalesced(h.blocks, i, h.blocks[i].off + HEADER + n);
      LfreeIsNot(h, i);
      SplitFree(h.blocks, i, true, h.blocks[i].off + HEADER + n, h.lfree);
      PlugKeeps(Split(h, i, n), i + 1);
    }
  }

  /** mem_realloc leaves the hint alone when it cuts off a free block, unless that is merged with the block at
      the hint. */
  predicate SparesHint(h: State, i: nat, size: nat)
    requires i < |h.blocks|
  {
    Shrinks(h, i, size) ==> h.lfree < h.blocks[i].off || h.lfree == h.End(i)
  }

  lemma ReallocSplits(h: State, i: nat, size: nat)
    requires i < |h.blocks| && h.blocks[i].used
    ensures Realloc(h, i, size) == if Shrinks(h, i, size) then MergeNext(Split(h, i, Rounded(size)), i + 1) else h
  {
    hide SplitAt;
    hide RemoveAt;
    hide Rounded;
  }

  /** Cutting off a free block leaves the hint exact when that block is above the hint. */
  lemma SplitLowest(h: State, i: nat, n: nat)
    requires Lowest(h) && i < |h.blocks| && h.lfree <= h.blocks[i].off + HEADER + n
    ensures Lowest(Split(h, i, n))
  {
    hide SplitAt;
  }

  /** Merging the new block with the one at the hint moves the hint down to it. */
  lemma HintMoves(h: State, i: nat, n: nat)
    requires i + 1 < |h.blocks| && Tiles(h.blocks) && Tiles(Split(h, i, n).blocks)
    requires h.blocks[i].used && h.blocks[i + 1] == Block(h.lfree, false) && Lowest(h)
    ensures Lowest(MergeNext(Split(h, i, n), i + 1))
  {
    hide SplitAt;
    hide RemoveAt;
    var s := Split(h, i, n);
    forall j | 0 <= j <= i ensures h.blocks[j].used {
      OrderedIndices(h.blocks, i + 1, j);
    }
    OrderedFrom(s.blocks, i + 1);
  }

  lemma OrderedFrom(blocks: seq<Block>, i: nat)
    requires Tiles(blocks) && i < |blocks|
    ensures forall j :: i <= j < |blocks| ==> blocks[i].off <= blocks[j].off
  {
  }

  /** A new free block below the hint stays below it. */
  lemma HintPassed(h: State, i: nat, n: nat)
    requires i < |h.blocks| && h.blocks[i].off + HEADER + n < h.lfree
    requires i + 1 < |h.blocks| ==> h.blocks[i + 1].off != h.lfree
    ensures !Lowest(MergeNext(Split(h, i, n), i + 1))
  {
    hide SplitAt;
    hide RemoveAt;
    var r := MergeNext(Split(h, i, n), i + 1);
    assert r.blocks[i + 1] == Block(h.blocks[i].off + HEADER + n, false) && r.lfree == h.lfree;
  }

  /** An exact hint stays exact if and only if it lies below the block that shrinks, or right behind it, or
      nothing is cut off. */
  lemma ReallocLowest(h: State, i: nat, size: nat)
    requires Ok(h) && Lowest(h) && i < |h.blocks| && h.blocks[i].used
    ensures Lowest(Realloc(h, i, size)) <==> SparesHint(h, i, size)
  {
    hide Ok;
    hide Lowest;
    hide Find;
    hide Rounded;
    hide Realloc;
    hide MergeNext;
    hide Split;
    ReallocSplits(h, i, size);
    if Shrinks(h, i, size) {
      var n, k := Rounded(size), Find(h.blocks, h.lfree);
      OkTiles(h);
      HintIsFree(h);
      LfreeIsNot(h, i);
      SplitKeepsTiles(h, i, n);
      OrderedIndices(h.blocks, k, i);
      if k < i {
        SplitLowest(h, i, n);
        NewMerged(h, i, n);
      } else if k == i + 1 {
        HintMoves(h, i, n);
      } else {
        HintIsAbove(h, i, k);
        HintPassed(h, i, n);
      }
    }
  }

  lemma SplitKeepsTiles(h: State, i: nat, n: nat)
    requires Tiles(h.blocks) && i < |h.blocks| && n + HEADER <= h.Room(i)
    ensures Tiles(Split(h, i, n).blocks)
  {
    hide SplitAt;
    hide Tiles;
    SplitTiles(h, i, n, h.blocks[i].used);
  }

  lemma NewMerged(h: State, i: nat, n: nat)
    requires i < |h.blocks| && Tiles(Split(h, i, n).blocks) && Lowest(Split(h, i, n))
    ensures Lowest(MergeNext(Split(h, i, n), i + 1))
  {
    hide SplitAt;
    hide RemoveAt;
    var s := Split(h, i, n);
    if i + 2 < |s.blocks| {
      MergeLowest(s, i + 1, i + 2);
    }
  }

  lemma HintIsAbove(h: State, i: nat, k: nat)
    requires Tiles(h.blocks) && i + 1 < k < |h.blocks| && h.blocks[k].off == h.lfree
    ensures h.End(i) < h.lfree
  {
  }

  /** The hint is never the offset of a used block. */
  lemma LfreeIsNot(h: State, i: nat)
    requires Ok(h) && i < |h.blocks| && h.blocks[i].used
    ensures h.blocks[i].off != h.lfree
  {
    var k :| 0 <= k < |h.blocks| && h.blocks[k] == Block(h.lfree, false);
    DistinctOffsets(h.blocks, i, k);
  }

  // ---------------------------------------------------------------------------------------------
  // First fit

  lemma OrderedIndices(blocks: seq<Block>, i: nat, k: nat)
    requires Tiles(blocks) && i < |blocks| && k < |blocks|
    ensures blocks[i].off <= blocks[k].off <==> i <= k
  {
  }

  /** What mem_malloc finds, in every reachable state: the lowest block that fits among those at or
      above the hint, and nothing exactly when none of those fits. */
  lemma MallocFromHint(h: State, size: nat)
    requires Ok(h) && 0 < size && Rounded(size) <= MEM_SIZE
    ensures Malloc(h, size).1 == Null <==>
            forall k :: 0 <= k < |h.blocks| && h.lfree <= h.blocks[k].off ==> !Fits(h, k, Rounded(size))
    ensures forall i :: 0 <= i < |h.blocks| && Malloc(h, size).1 == At(h.blocks[i].off + HEADER) ==>
              && h.lfree <= h.blocks[i].off
              && Fits(h, i, Rounded(size))
              && forall k :: 0 <= k < i && h.lfree <= h.blocks[k].off ==> !Fits(h, k, Rounded(size))
  {
    hide FirstFit;
    hide Take;
    HintIsFree(h);
    var first, n := Find(h.blocks, h.lfree), Rounded(size);
    var c := Chosen(h, n);
    forall k | 0 <= k < |h.blocks| ensures h.lfree <= h.blocks[k].off <==> first <= k {
      OrderedIndices(h.blocks, first, k);
    }
    forall i | 0 <= i < |h.blocks| && c < |h.blocks| && h.blocks[i].off == h.blocks[c].off ensures i == c {
      OrderedIndices(h.blocks, i, c);
      OrderedIndices(h.blocks, c, i);
    }
  }

  /** No block that fits lies below the hint. */
  ghost predicate NothingMissed(h: State, n: nat) {
    forall k :: 0 <= k < |h.blocks| && h.blocks[k].off < h.lfree ==> !Fits(h, k, n)
  }

  /** First fit is exact, the whole heap considered, as long as no block that fits lies below the hint:
      NULL is returned only when no block fits, and otherwise the lowest block that fits is taken.
      And only then. */
  lemma FirstFitIsExact(h: State, size: nat)
    requires Ok(h) && 0 < size && Rounded(size) <= MEM_SIZE
    ensures NothingMissed(h, Rounded(size)) <==>
            && (Malloc(h, size).1 == Null ==> forall k :: 0 <= k < |h.blocks| ==> !Fits(h, k, Rounded(size)))
            && (forall i :: 0 <= i < |h.blocks| && Malloc(h, size).1 == At(h.blocks[i].off + HEADER) ==>
                  forall k :: 0 <= k < i ==> !Fits(h, k, Rounded(size)))
  {
    hide Malloc;
    hide Fits;
    hide Ok;
    MallocFromHint(h, size);
    MallocTakesBlock(h, size);
    var n := Rounded(size);
    forall k, i | 0 <= k < |h.blocks| && 0 <= i < |h.blocks| && h.blocks[k].off < h.lfree <= h.blocks[i].off
      ensures k < i
    {
      OkTiles(h);
      OrderedIndices(h.blocks, i, k);
    }
  }

  lemma OkTiles(h: State)
    requires Ok(h)
    ensures Tiles(h.blocks)
  {
  }

  lemma MallocTakesBlock(h: State, size: nat)
    ensures Malloc(h, size).1 != Null ==>
              exists i :: 0 <= i < |h.blocks| && Malloc(h, size).1 == At(h.blocks[i].off + HEADER)
  {
  }

  /** With an exact hint nothing is missed. */
  lemma LowestMissesNothing(h: State, n: nat)
    requires Lowest(h)
    ensures NothingMissed(h, n)
  {
  }

  // ---------------------------------------------------------------------------------------------
  // What the operations do to the allocated memory

  /** Allocated pieces never overlap, nor the headers between them. */
  lemma LiveDisjoint(h: State, p: int, len: int, p': int, len': int)
    requires Tiles(h.blocks) && Live(h, p, len) && Live(h, p', len')
    ensures p < p' ==> p + len + HEADER <= p'
    ensures p == p' ==> len == len'
    ensures HEADER <= p && 0 <= len && p + len <= MEM_SIZE
  {
    var i: nat :| i < |h.blocks| && IsPiece(h, i, p, len);
    var k: nat :| k < |h.blocks| && IsPiece(h, k, p', len');
    PieceBounds(h, i, k);
    PieceBounds(h, k, i);
  }

  lemma PieceBounds(h: State, i: nat, k: nat)
    requires Tiles(h.blocks) && i < |h.blocks| && k < |h.blocks|
    ensures 0 <= h.blocks[i].off && 0 <= h.Room(i) && h.End(i) <= MEM_SIZE
    ensures i < k ==> h.End(i) <= h.blocks[k].off && h.blocks[i].off < h.blocks[k].off
  {
    if i < k {
      OrderedIndices(h.blocks, i + 1, k);
    }
  }

  /** A header that goes away between two free blocks leaves the allocated memory as it is. */
  lemma RemoveLive(h: State, k: nat, lfree: int, p: int, len: int)
    requires 0 < k < |h.blocks| && !h.blocks[k].used && !h.blocks[k - 1].used
    ensures Live(State(RemoveAt(h.blocks, k), lfree), p, len) <==> Live(h, p, len)
  {
    hide RemoveAt;
    var h' := State(RemoveAt(h.blocks, k), lfree);
    if Live(h, p, len) {
      var i: nat :| i < |h.blocks| && IsPiece(h, i, p, len);
      assert IsPiece(h', if i < k then i else i - 1, p, len);
    }
    if Live(h', p, len) {
      var i: nat :| i < |h'.blocks| && IsPiece(h', i, p, len);
      assert IsPiece(h, if i < k then i else i + 1, p, len);
    }
  }

  lemma PlugLive(h: State, i: nat, p: int, len: int)
    requires i < |h.blocks| && !h.blocks[i].used
    ensures Live(PlugHoles(h, i), p, len) <==> Live(h, p, len)
  {
    hide Live;
    hide RemoveAt;
    var h1 := MergeNext(h, i);
    if i + 1 < |h.blocks| && !h.blocks[i + 1].used {
      RemoveLive(h, i + 1, h1.lfree, p, len);
    }
    if i > 0 && !h1.blocks[i - 1].used {
      RemoveLive(h1, i, MergePrev(h1, i).lfree, p, len);
    }
  }

  lemma SplitPieces(h: State, i: nat, used: bool, n: nat, lfree: int, k: nat, p: int, len: int)
    requires i < |h.blocks| && k < |h.blocks|
    ensures var h' := State(SplitAt(h.blocks, i, used, h.blocks[i].off + HEADER + n), lfree);
            && (IsPiece(h', i, p, len) <==> used && p == h.blocks[i].off + HEADER && len == n)
            && !IsPiece(h', i + 1, p, len)
            && (k < i ==> (IsPiece(h', k, p, len) <==> IsPiece(h, k, p, len)))
            && (k > i ==> (IsPiece(h', k + 1, p, len) <==> IsPiece(h, k, p, len)))
  {
    hide SplitAt;
  }

  /** A split gives the piece before the new header to the old one, and leaves all others alone. */
  lemma SplitLive(h: State, i: nat, used: bool, n: nat, lfree: int, p: int, len: int)
    requires Tiles(h.blocks) && i < |h.blocks|
    ensures var h' := State(SplitAt(h.blocks, i, used, h.blocks[i].off + HEADER + n), lfree);
            Live(h', p, len) <==>
              || (used && p == h.blocks[i].off + HEADER && len == n)
              || (p != h.blocks[i].off + HEADER && Live(h, p, len))
  {
    hide SplitAt;
    hide Tiles;
    var h' := State(SplitAt(h.blocks, i, used, h.blocks[i].off + HEADER + n), lfree);
    SplitPieces(h, i, used, n, lfree, i, p, len);
    if p != h.blocks[i].off + HEADER && Live(h, p, len) {
      var k: nat :| k < |h.blocks| && IsPiece(h, k, p, len);
      SplitPieces(h, i, used, n, lfree, k, p, len);
      assert IsPiece(h', if k < i then k else k + 1, p, len);
    }
    if Live(h', p, len) && !(used && p == h.blocks[i].off + HEADER && len == n) {
      var k': nat :| k' < |h'.blocks| && IsPiece(h', k', p, len);
      assert k' != i && k' != i + 1;
      var k := if k' < i then k' else k' - 1;
      SplitPieces(h, i, used, n, lfree, k, p, len);
      DistinctOffsets(h.blocks, i, k);
    }
  }

  /** A successful allocation adds one piece, of exactly the rounded size, and changes no other. */
  lemma MallocLive(h: State, size: nat, p: int, len: int)
    requires Ok(h)
    ensures var (h', r) := Malloc(h, size);
            Live(h', p, len) <==> Live(h, p, len) || (r == At(p) && len == Rounded(size))
    ensures Malloc(h, size).1 == At(p) ==> !Live(h, p, len)
  {
    hide Live;
    hide SplitAt;
    if !Refused(h, size) {
      var i := Chosen(h, Rounded(size));
      SplitLive(h, i, true, Rounded(size), Take(h, i, Rounded(size)).lfree, p, len);
      FreeIsNotLive(h, i, len);
    }
  }

  lemma FreeIsNotLive(h: State, i: nat, len: int)
    requires Tiles(h.blocks) && i < |h.blocks| && !h.blocks[i].used
    ensures !Live(h, h.blocks[i].off + HEADER, len)
  {
    forall k: nat | k < |h.blocks| && k != i ensures h.blocks[k].off != h.blocks[i].off {
      DistinctOffsets(h.blocks, i, k);
    }
  }

  /** The piece handed out is as long as requested, except for the one request whose rounding wraps
      around in 16 bits. */
  lemma MallocLongEnough(size: nat)
    requires size < U16
    ensures size <= Rounded(size) <==> size != U16 - 1
  {
  }

  lemma MarkFreeLive(h: State, i: nat, p: int, len: int)
    requires Tiles(h.blocks) && i < |h.blocks|
    ensures Live(MarkFree(h, i), p, len) <==> Live(h, p, len) && p != h.blocks[i].off + HEADER
  {
    hide Tiles;
    var h' := MarkFree(h, i);
    if Live(h', p, len) {
      var k: nat :| k < |h'.blocks| && IsPiece(h', k, p, len);
      assert IsPiece(h, k, p, len);
      DistinctOffsets(h.blocks, i, k);
    }
    if Live(h, p, len) && p != h.blocks[i].off + HEADER {
      var k: nat :| k < |h.blocks| && IsPiece(h, k, p, len);
      assert IsPiece(h', k, p, len);
    }
  }

  /** Freeing removes one piece and changes no other. */
  lemma FreeLive(h: State, i: nat, p: int, len: int)
    requires Ok(h) && i < |h.blocks| && h.blocks[i].used
    ensures Live(Free(h, i), p, len) <==> Live(h, p, len) && p != h.blocks[i].off + HEADER
  {
    hide PlugHoles;
    hide Live;
    PlugLive(MarkFree(h, i), i, p, len);
    MarkFreeLive(h, i, p, len);
  }

  /** Shrinking changes the length of one piece, to the rounded size, and no other; a request that
      leaves too little to split off changes nothing. */
  lemma ReallocLive(h: State, i: nat, size: nat, p: int, len: int)
    requires Ok(h) && i < |h.blocks| && h.blocks[i].used
    ensures Live(Realloc(h, i, size), p, len) <==>
            if Shrinks(h, i, size) && p == h.blocks[i].off + HEADER then len == Rounded(size) else Live(h, p, len)
  {
    hide Live;
    hide SplitAt;
    hide PlugHoles;
    hide Shrinks;
    if Shrinks(h, i, size) {
      PlugLive(Split(h, i, Rounded(size)), i + 1, p, len);
      SplitLive(h, i, true, Rounded(size), h.lfree, p, len);
    }
  }

  // ---------------------------------------------------------------------------------------------
  // In numbers

  /** The bytes for a request: rounded up to an even number, but for the request that wraps. */
  lemma RoundedIs(size: nat)
    requires size <= 65535
    ensures Rounded(size) == if size == 65535 then 0 else size + size % 2
  {
  }

  /** mem_malloc succeeds if and only if a free block at or above the hint has room for the rounded request and for
      the 6 bytes of another header.  An empty request fails; that for 65535 bytes wraps and does not. */
  lemma MallocSucceeds(h: State, size: nat)
    requires Ok(h) && size <= 65535
    ensures var n := if size == 65535 then 0 else size + size % 2;
            Malloc(h, size).1 != Null <==>
            size > 0
            && exists k ::
                 0 <= k < |h.blocks| && h.lfree <= h.blocks[k].off && !h.blocks[k].used && h.Room(k) >= n + 6
  {
    hide Malloc;
    hide Ok;
    RoundedIs(size);
    RoomBelow(h);
    if size == 0 {
      EmptyRequest(h);
    } else if Rounded(size) <= MEM_SIZE {
      MallocFromHint(h, size);
    } else {
      TooLarge(h, size);
    }
    hide Rounded;
  }

  lemma EmptyRequest(h: State)
    ensures Malloc(h, 0).1 == Null
  {
  }

  lemma TooLarge(h: State, size: nat)
    requires Rounded(size) > MEM_SIZE
    ensures Malloc(h, size).1 == Null
  {
  }

  lemma RoomBelow(h: State)
    requires Ok(h)
    ensures forall k :: 0 <= k < |h.blocks| ==> h.Room(k) <= 9994
  {
    forall k | 0 <= k < |h.blocks| ensures h.Room(k) <= 9994 {
      assert k > 0 ==> h.blocks[0].off + HEADER <= h.blocks[k].off;
      assert k + 1 < |h.blocks| ==> h.blocks[k + 1].off + HEADER <= MEM_SIZE;
    }
  }

  /** mem_realloc leaves a piece of len bytes with the bytes asked for, rounded, if more than 18 bytes fewer, and
      with all it had otherwise: it never grows. */
  lemma ReallocLength(h: State, i: nat, size: nat, len: int)
    requires Ok(h) && i < |h.blocks| && h.blocks[i].used && size <= 65535
    ensures var n, p := if size == 65535 then 0 else size + size % 2, h.blocks[i].off + 6;
            Live(Realloc(h, i, size), p, len) <==> len == if n + 18 < h.Room(i) then n else h.Room(i)
  {
    hide Realloc;
    hide Live;
    RoundedIs(size);
    RoomBelow(h);
    ReallocLive(h, i, size, h.blocks[i].off + HEADER, len);
    OnePiece(h, i, len);
    hide Rounded;
    hide Ok;
  }

  /** A used block is one piece. */
  lemma OnePiece(h: State, i: nat, len: int)
    requires Ok(h) && i < |h.blocks| && h.blocks[i].used
    ensures Live(h, h.blocks[i].off + HEADER, len) <==> len == h.Room(i)
  {
    assert IsPiece(h, i, h.blocks[i].off + HEADER, h.Room(i));
    if Live(h, h.blocks[i].off + HEADER, len) {
      var k: nat :| k < |h.blocks| && IsPiece(h, k, h.blocks[i].off + HEADER, len);
      OrderedIndices(h.blocks, i, k);
      OrderedIndices(h.blocks, k, i);
    }
  }

  // ---------------------------------------------------------------------------------------------
  // Runs

  datatype Op = MallocOp(size: nat) | FreeOp(p: int) | ReallocOp(p: int, size: nat)

  /** The index of the used block whose memory starts at p, or the number of blocks. */
  function UsedAt(h: State, p: int): (i: nat)
    ensures i < |h.blocks| ==> h.blocks[i] == Block(p - HEADER, true)
  {
    var i := Find(h.blocks, p - HEADER);
    if i < |h.blocks| && h.blocks[i] == Block(p - HEADER, true) then i else |h.blocks|
  }

  /** One call.  A call with a pointer that is not allocated breaks the contract; it is no step. */
  function Next(h: State, op: Op): State {
    match op
    case MallocOp(size) => Malloc(h, size).0
    case FreeOp(p) => if UsedAt(h, p) < |h.blocks| then Free(h, UsedAt(h, p)) else h
    case ReallocOp(p, size) => if UsedAt(h, p) < |h.blocks| then Realloc(h, UsedAt(h, p), size) else h
  }

  function Run(h: State, ops: seq<Op>): State
    decreases |ops|
  {
    if ops == [] then h else Run(Next(h, ops[0]), ops[1..])
  }

  lemma InitialOk()
    ensures Ok(INITIAL) && Lowest(INITIAL)
  {
    assert INITIAL.blocks[0] == Block(0, false);
  }

  /** What a caller can check before a call that shrinks a block. */
  predicate Sparing(h: State, op: Op) {
    op.ReallocOp? && UsedAt(h, op.p) < |h.blocks| ==> SparesHint(h, UsedAt(h, op.p), op.size)
  }

  predicate AllSparing(h: State, ops: seq<Op>)
    decreases |ops|
  {
    ops == [] || (Sparing(h, ops[0]) && AllSparing(Next(h, ops[0]), ops[1..]))
  }

  /** The hint is the lowest free block in every state of the run. */
  ghost predicate AlwaysLowest(h: State, ops: seq<Op>)
    decreases |ops|
  {
    Lowest(h) && (ops == [] || AlwaysLowest(Next(h, ops[0]), ops[1..]))
  }

  /** Over any run the blocks tile the memory, no two neighbours are free, and the hint is a free block. */
  lemma {:induction false} RunKeeps(h: State, ops: seq<Op>)
    requires Ok(h)
    ensures Ok(Run(h, ops))
    decreases |ops|
  {
    if ops != [] {
      hide Ok;
      NextKeeps(h, ops[0]);
      RunKeeps(Next(h, ops[0]), ops[1..]);
    }
  }

  /** It is the lowest one all the time exactly in the runs in which every call that shrinks a block spares it. */
  lemma {:induction false} RunLowest(h: State, ops: seq<Op>)
    requires Ok(h) && Lowest(h)
    ensures AlwaysLowest(h, ops) <==> AllSparing(h, ops)
    ensures AllSparing(h, ops) ==> Lowest(Run(h, ops))
    decreases |ops|
  {
    hide Ok;
    hide Lowest;
    hide Next;
    hide Sparing;
    if ops != [] {
      NextKeeps(h, ops[0]);
      if Sparing(h, ops[0]) {
        RunLowest(Next(h, ops[0]), ops[1..]);
      }
    }
  }

  /** A call keeps the invariant, and keeps an exact hint exact if and only if it is a sparing one. */
  lemma NextKeeps(h: State, op: Op)
    requires Ok(h)
    ensures Ok(Next(h, op))
    ensures Lowest(h) ==> (Lowest(Next(h, op)) <==> Sparing(h, op))
  {
    hide Ok;
    hide Lowest;
    hide SparesHint;
    match op
    case MallocOp(size) => MallocKeeps(h, size);
    case FreeOp(p) => if UsedAt(h, p) < |h.blocks| { FreeKeeps(h, UsedAt(h, p)); }
    case ReallocOp(p, size) =>
      var i := UsedAt(h, p);
      if i < |h.blocks| {
        ReallocKeeps(h, i, size);
        if Lowest(h) {
          ReallocLowest(h, i, size);
        }
      }
  }

  // ---------------------------------------------------------------------------------------------
  // Alignment

  predicate Even(x: int) { x % ALIGNMENT == 0 }

  /** All headers, and with them all pieces, are aligned. */
  ghost predicate Aligned(h: State) {
    forall i :: 0 <= i < |h.blocks| ==> Even(h.blocks[i].off)
  }

  lemma RoundedEven(size: nat, off: int)
    requires Even(off)
    ensures Even(off + HEADER + Rounded(size)) && Even(off + HEADER)
  {
  }

  lemma SplitAligned(h: State, i: nat, used: bool, rest: int, lfree: int)
    requires Aligned(h) && i < |h.blocks| && Even(rest)
    ensures Aligned(State(SplitAt(h.blocks, i, used, rest), lfree))
  {
    hide SplitAt;
    hide Even;
  }

  lemma PlugAligned(h: State, i: nat)
    requires Aligned(h) && i < |h.blocks|
    ensures Aligned(PlugHoles(h, i))
  {
    hide RemoveAt;
    hide Even;
  }

  /** No call moves a header to an odd place. */
  lemma NextAligned(h: State, op: Op)
    requires Aligned(h)
    ensures Aligned(Next(h, op))
  {
    hide Even;
    hide Rounded;
    hide SplitAt;
    hide PlugHoles;
    match op
    case MallocOp(size) =>
      if !Refused(h, size) {
        var i := Chosen(h, Rounded(size));
        RoundedEven(size, h.blocks[i].off);
        SplitAligned(h, i, true, h.blocks[i].off + HEADER + Rounded(size), Take(h, i, Rounded(size)).lfree);
      }
    case FreeOp(p) =>
      var i := UsedAt(h, p);
      if i < |h.blocks| {
        PlugAligned(MarkFree(h, i), i);
      }
    case ReallocOp(p, size) =>
      var i := UsedAt(h, p);
      if i < |h.blocks| && Shrinks(h, i, size) {
        RoundedEven(size, h.blocks[i].off);
        SplitAligned(h, i, h.blocks[i].used, h.blocks[i].off + HEADER + Rounded(size), h.lfree);
        PlugAligned(Split(h, i, Rounded(size)), i + 1);
      }
  }

  /** In every run all pieces handed out are aligned. */
  lemma {:induction false} RunAligned(h: State, ops: seq<Op>)
    requires Aligned(h)
    ensures Aligned(Run(h, ops))
    decreases |ops|
  {
    hide Aligned;
    hide Next;
    if ops != [] {
      NextAligned(h, ops[0]);
      RunAligned(Next(h, ops[0]), ops[1..]);
    }
  }

  /** First fit is exact after every run in which each call that shrinks a block spares the hint. */
  lemma RunFirstFit(ops: seq<Op>, size: nat)
    requires 0 < size && Rounded(size) <= MEM_SIZE
    requires AllSparing(INITIAL, ops)
    ensures var h := Run(INITIAL, ops);
            && (Malloc(h, size).1 == Null ==> forall k :: 0 <= k < |h.blocks| ==> !Fits(h, k, Rounded(size)))
            && (forall i :: 0 <= i < |h.blocks| && Malloc(h, size).1 == At(h.blocks[i].off + HEADER) ==>
                  Fits(h, i, Rounded(size)) && forall k :: 0 <= k < i ==> !Fits(h, k, Rounded(size)))
  {
    hide Ok;
    hide Lowest;
    hide Malloc;
    hide Fits;
    InitialOk();
    hide AllSparing;
    RunKeeps(INITIAL, ops);
    RunLowest(INITIAL, ops);
    var h := Run(INITIAL, ops);
    LowestMissesNothing(h, Rounded(size));
    FirstFitIsExact(h, size);
    MallocFromHint(h, size);
  }

  /** Frees the given pointers one after the other. */
  function FreeAll(h: State, ps: seq<int>): State
    decreases |ps|
  {
    if ps == [] then h else FreeAll(Next(h, FreeOp(ps[0])), ps[1..])
  }

  /** A pointer is found exactly when it is allocated. */
  lemma UsedAtLive(h: State, p: int)
    requires Tiles(h.blocks)
    ensures UsedAt(h, p) < |h.blocks| <==> exists len :: Live(h, p, len)
  {
    if UsedAt(h, p) < |h.blocks| {
      assert IsPiece(h, UsedAt(h, p), p, h.Room(UsedAt(h, p)));
      assert Live(h, p, h.Room(UsedAt(h, p)));
    }
    if exists len :: Live(h, p, len) {
      var len :| Live(h, p, len);
      var i: nat :| i < |h.blocks| && IsPiece(h, i, p, len);
      FindIs(h.blocks, i);
    }
  }

  lemma FirstTwoNotBothFree(h: State)
    requires Ok(h)
    ensures |h.blocks| > 1 ==> h.blocks[0].used || h.blocks[1].used
  {
  }

  /** With nothing allocated the heap is as it was at the start. */
  lemma NothingLive(h: State)
    requires Ok(h) && forall p, len :: !Live(h, p, len)
    ensures h == INITIAL
  {
    forall i: nat | i < |h.blocks| ensures h.blocks[i].used ==> Live(h, h.blocks[i].off + HEADER, h.Room(i)) {
      assert h.blocks[i].used ==> IsPiece(h, i, h.blocks[i].off + HEADER, h.Room(i));
    }
    FirstTwoNotBothFree(h);
  }

  /** What a call of mem_free leaves allocated. */
  lemma FreeStepLive(h: State, p0: int, p: int, len: int)
    requires Ok(h)
    ensures Live(Next(h, FreeOp(p0)), p, len) <==> Live(h, p, len) && p != p0
  {
    hide Live;
    hide Free;
    UsedAtLive(h, p0);
    if UsedAt(h, p0) < |h.blocks| {
      FreeLive(h, UsedAt(h, p0), p, len);
    }
  }

  lemma {:induction false} FreeAllEmpties(h: State, ps: seq<int>)
    requires Ok(h)
    requires forall p, len :: Live(h, p, len) ==> p in ps
    ensures FreeAll(h, ps) == INITIAL
    decreases |ps|
  {
    hide Live;
    hide Ok;
    if ps == [] {
      NothingLive(h);
    } else {
      var h' := Next(h, FreeOp(ps[0]));
      NextKeeps(h, FreeOp(ps[0]));
      forall p, len | Live(h', p, len) ensures p in ps[1..] {
        FreeStepLive(h, ps[0], p, len);
      }
      FreeAllEmpties(h', ps[1..]);
    }
  }

  /** After any run, freeing everything that is allocated, in any order, gives back the single block of
      the start. */
  lemma FreeingEverything(ops: seq<Op>, ps: seq<int>)
    requires forall p, len :: Live(Run(INITIAL, ops), p, len) ==> p in ps
    ensures FreeAll(Run(INITIAL, ops), ps) == INITIAL
  {
    InitialOk();
    RunKeeps(INITIAL, ops);
    FreeAllEmpties(Run(INITIAL, ops), ps);
  }

  // ---------------------------------------------------------------------------------------------
  // What does not hold

  /** mem_realloc does not lower the hint to the block it cuts off: after this run a request fails
      although a free block has room for it. */
  lemma HintMissesAfterRealloc()
    ensures var h := Run(INITIAL, [MallocOp(100), MallocOp(9880), ReallocOp(HEADER, 20)]);
            && Malloc(h, 50).1 == Null
            && 1 < |h.blocks| && Fits(h, 1, 50)
            && !NothingMissed(h, 50)
  {
    hide Malloc;
    hide Next;
    FirstMalloc();
    SecondMalloc();
    ShrinkStep();
    RunThree(INITIAL, MallocOp(100), MallocOp(9880), ReallocOp(HEADER, 20));
    ThirdMallocFails();
  }

  lemma RunThree(h: State, a: Op, b: Op, c: Op)
    ensures Run(h, [a, b, c]) == Next(Next(Next(h, a), b), c)
  {
    hide Next;
    assert [a, b, c][1..] == [b, c] && [b, c][1..] == [c] && [c][1..] == [];
    assert Run(Next(Next(h, a), b), [c]) == Next(Next(Next(h, a), b), c);
    assert Run(Next(h, a), [b, c]) == Next(Next(Next(h, a), b), c);
  }

  lemma FirstMalloc()
    ensures Next(INITIAL, MallocOp(100)) == State([Block(0, true), Block(106, false)], 106)
  {
    assert Chosen(INITIAL, 100) == 0;
    assert Take(INITIAL, 0, 100).blocks == [Block(0, true), Block(106, false)];
  }

  lemma ThirdMallocFails()
    ensures var h := State([Block(0, true), Block(26, false), Block(106, true), Block(9992, false)], 9992);
            Malloc(h, 50).1 == Null && Fits(h, 1, 50)
  {
    var h := State([Block(0, true), Block(26, false), Block(106, true), Block(9992, false)], 9992);
    FindAt(h.blocks, 9992, 3);
    assert !Fits(h, 3, 50);
    assert FirstFit(h, 3, 50) == FirstFit(h, 4, 50);
  }

  lemma SecondMalloc()
    ensures Next(State([Block(0, true), Block(106, false)], 106), MallocOp(9880))
         == State([Block(0, true), Block(106, true), Block(9992, false)], 9992)
  {
    var h := State([Block(0, true), Block(106, false)], 106);
    FindIs(h.blocks, 1);
    assert Chosen(h, 9880) == 1;
    assert Take(h, 1, 9880).blocks == [Block(0, true), Block(106, true), Block(9992, false)];
  }

  lemma ShrinkStep()
    ensures Next(State([Block(0, true), Block(106, true), Block(9992, false)], 9992), ReallocOp(HEADER, 20))
         == State([Block(0, true), Block(26, false), Block(106, true), Block(9992, false)], 9992)
  {
    var h := State([Block(0, true), Block(106, true), Block(9992, false)], 9992);
    assert UsedAt(h, HEADER) == 0;
    assert Shrinks(h, 0, 20);
    assert Split(h, 0, 20).blocks == [Block(0, true), Block(26, false), Block(106, true), Block(9992, false)];
  }

  /** The request for 65535 bytes is rounded to 0 in 16 bits and succeeds with no bytes at all. */
  lemma WrappedRequest()
    ensures Malloc(INITIAL, U16 - 1).1 == At(HEADER)
    ensures Live(Malloc(INITIAL, U16 - 1).0, HEADER, 0)
  {
    assert Chosen(INITIAL, 0) == 0;
    assert IsPiece(Malloc(INITIAL, U16 - 1).0, 0, HEADER, 0);
  }
}
