/**
 * The heap allocator on the bytes it manages.  Every block starts with a header of three 16-bit
 * fields inside the array itself: next, prev and used.
 */
module HeapMemory {
  import opened Bytes
  import opened Heap

  /** Room for all blocks and for the header of the sentinel at the end. */
  const RAM_SIZE := MEM_SIZE + HEADER + ALIGNMENT

  datatype Fields = Fields(next: int, prev: int, used: int)

  function Get16(s: seq<u8>, p: int): int
    requires 0 <= p < |s| - 1
  {
    Join(s[p], s[p + 1])
  }

  function Put16(s: seq<u8>, p: int, v: int): (r: seq<u8>)
    requires 0 <= p < |s| - 1 && 0 <= v < U16
    ensures |r| == |s| && Get16(r, p) == v
  {
    JoinParts(v);
    s[p := Low(v)][p + 1 := High(v)]
  }

  function Header(s: seq<u8>, p: int): Fields
    requires 0 <= p <= |s| - HEADER
  {
    Fields(Get16(s, p), Get16(s, p + 2), Get16(s, p + 4))
  }

  function SetNext(s: seq<u8>, p: int, v: int): (r: seq<u8>)
    requires 0 <= p <= |s| - HEADER && 0 <= v < U16
    ensures |r| == |s| && Header(r, p) == Header(s, p).(next := v)
  {
    Put16(s, p, v)
  }

  function SetPrev(s: seq<u8>, p: int, v: int): (r: seq<u8>)
    requires 0 <= p <= |s| - HEADER && 0 <= v < U16
    ensures |r| == |s| && Header(r, p) == Header(s, p).(prev := v)
  {
    Put16(s, p + 2, v)
  }

  function SetUsed(s: seq<u8>, p: int, v: int): (r: seq<u8>)
    requires 0 <= p <= |s| - HEADER && 0 <= v < U16
    ensures |r| == |s| && Header(r, p) == Header(s, p).(used := v)
  {
    Put16(s, p + 4, v)
  }

  /** Nothing outside the header at p differs. */
  ghost predicate SameBut(s: seq<u8>, r: seq<u8>, p: int) {
    |r| == |s| && forall x :: 0 <= x < |s| && !(p <= x < p + HEADER) ==> r[x] == s[x]
  }

  lemma SetsAreLocal(s: seq<u8>, p: int, v: int)
    requires 0 <= p <= |s| - HEADER && 0 <= v < U16
    ensures SameBut(s, SetNext(s, p, v), p) && SameBut(s, SetPrev(s, p, v), p) && SameBut(s, SetUsed(s, p, v), p)
  {
  }

  lemma OtherHeader(s: seq<u8>, r: seq<u8>, p: int, q: int)
    requires SameBut(s, r, p) && 0 <= q <= |s| - HEADER && (q + HEADER <= p || p + HEADER <= q)
    ensures Header(r, q) == Header(s, q)
  {
  }

  // ---------------------------------------------------------------------------------------------
  // The chain in memory

  /** What the header of block i has to say. */
  function HeaderOf(h: State, i: nat): Fields
    requires i < |h.blocks|
  {
    Fields(h.End(i), if i == 0 then 0 else h.blocks[i - 1].off, if h.blocks[i].used then 1 else 0)
  }

  /** The bytes hold the chain: every header, and the sentinel at the end, whose prev is left open. */
  ghost predicate Holds(s: seq<u8>, h: State) {
    && |s| == RAM_SIZE
    && Tiles(h.blocks)
    && Header(s, MEM_SIZE).next == MEM_SIZE && Header(s, MEM_SIZE).used == 1
    && forall i {:trigger HeaderOf(h, i)} :: 0 <= i < |h.blocks| ==> Header(s, h.blocks[i].off) == HeaderOf(h, i)
  }

  /** Two headers are the same one or do not overlap. */
  predicate Apart(p: int, q: int) {
    p == q || p + HEADER <= q || q + HEADER <= p
  }

  /** The bytes of a range are the same. */
  ghost predicate Kept(s: seq<u8>, r: seq<u8>, p: int, len: int) {
    |r| == |s| && forall x :: 0 <= x < |s| && p <= x < p + len ==> r[x] == s[x]
  }

  /** A range that does not meet the header at p. */
  predicate Misses(p: int, len: int, q: int) {
    p + len <= q || q + HEADER <= p
  }

  lemma KeptSet(s: seq<u8>, r: seq<u8>, q: int, p: int, len: int)
    requires SameBut(s, r, q) && Misses(p, len, q)
    ensures Kept(s, r, p, len)
  {
  }

  lemma KeptSame(s: seq<u8>)
    ensures forall p, len :: Kept(s, s, p, len)
  {
  }

  lemma KeptThrough(s: seq<u8>, t: seq<u8>, r: seq<u8>, p: int, len: int)
    requires Kept(s, t, p, len) && Kept(t, r, p, len)
    ensures Kept(s, r, p, len)
  {
  }

  /** What one field write does to every header and to every range. */
  lemma SetAt(s: seq<u8>, p: int, v: int, q: int)
    requires 0 <= p <= |s| - HEADER && 0 <= v < U16
    requires 0 <= q <= |s| - HEADER && Apart(p, q)
    ensures Header(SetNext(s, p, v), q) == if q == p then Header(s, q).(next := v) else Header(s, q)
    ensures Header(SetPrev(s, p, v), q) == if q == p then Header(s, q).(prev := v) else Header(s, q)
    ensures Header(SetUsed(s, p, v), q) == if q == p then Header(s, q).(used := v) else Header(s, q)
  {
    hide SetNext;
    hide SetPrev;
    hide SetUsed;
    hide Header;
    SetsAreLocal(s, p, v);
    if q != p {
      OtherHeader(s, SetNext(s, p, v), p, q);
      OtherHeader(s, SetPrev(s, p, v), p, q);
      OtherHeader(s, SetUsed(s, p, v), p, q);
    }
  }

  lemma SetKeeps(s: seq<u8>, p: int, v: int, q: int, len: int)
    requires 0 <= p <= |s| - HEADER && 0 <= v < U16 && Misses(q, len, p)
    ensures Kept(s, SetNext(s, p, v), q, len)
    ensures Kept(s, SetPrev(s, p, v), q, len)
    ensures Kept(s, SetUsed(s, p, v), q, len)
  {
    hide SetNext;
    hide SetPrev;
    hide SetUsed;
    SetsAreLocal(s, p, v);
    KeptSet(s, SetNext(s, p, v), p, q, len);
    KeptSet(s, SetPrev(s, p, v), p, q, len);
    KeptSet(s, SetUsed(s, p, v), p, q, len);
  }

  // ---------------------------------------------------------------------------------------------
  // The writes of each operation

  /** mem_malloc's writes when it takes the front of the block at ptr. */
  function TakeBytes(s: seq<u8>, ptr: int, rest: int, next: int): (r: seq<u8>)
    requires |s| == RAM_SIZE && 0 <= ptr && ptr + HEADER <= rest && rest + HEADER <= next <= MEM_SIZE
    ensures |r| == RAM_SIZE
  {
    var s1 := SetPrev(s, rest, ptr);
    var s2 := SetNext(s1, rest, next);
    var s3 := SetNext(s2, ptr, rest);
    var s4 := if next != MEM_SIZE then SetPrev(s3, next, rest) else s3;
    var s5 := SetUsed(s4, rest, 0);
    SetUsed(s5, ptr, 1)
  }

  /** What mem_malloc's writes make of every header. */
  lemma TakeHeader(s: seq<u8>, ptr: int, rest: int, next: int, q: int)
    requires |s| == RAM_SIZE && 0 <= ptr && ptr + HEADER <= rest && rest + HEADER <= next <= MEM_SIZE
    requires 0 <= q <= MEM_SIZE && Apart(ptr, q) && Apart(rest, q) && Apart(next, q)
    ensures Header(TakeBytes(s, ptr, rest, next), q) ==
              if q == rest then Fields(next, ptr, 0)
              else if q == ptr then Header(s, q).(next := rest, used := 1)
              else if q == next && next != MEM_SIZE then Header(s, q).(prev := rest)
              else Header(s, q)
  {
    hide SetNext;
    hide SetPrev;
    hide SetUsed;
    hide Header;
    var s1 := SetPrev(s, rest, ptr);
    var s2 := SetNext(s1, rest, next);
    var s3 := SetNext(s2, ptr, rest);
    var s4 := if next != MEM_SIZE then SetPrev(s3, next, rest) else s3;
    var s5 := SetUsed(s4, rest, 0);
    SetAt(s, rest, ptr, q);
    SetAt(s1, rest, next, q);
    SetAt(s2, ptr, rest, q);
    SetAt(s3, next, rest, q);
    SetAt(s4, rest, 0, q);
    SetAt(s5, ptr, 1, q);
  }

  lemma TakeKept(s: seq<u8>, ptr: int, rest: int, next: int, p: int, len: int)
    requires |s| == RAM_SIZE && 0 <= ptr && ptr + HEADER <= rest && rest + HEADER <= next <= MEM_SIZE
    requires Misses(p, len, ptr) && Misses(p, len, rest) && Misses(p, len, next)
    ensures Kept(s, TakeBytes(s, ptr, rest, next), p, len)
  {
    hide SetNext;
    hide SetPrev;
    hide SetUsed;
    hide Header;
    var s1 := SetPrev(s, rest, ptr);
    var s2 := SetNext(s1, rest, next);
    var s3 := SetNext(s2, ptr, rest);
    var s4 := if next != MEM_SIZE then SetPrev(s3, next, rest) else s3;
    var s5 := SetUsed(s4, rest, 0);
    SetKeeps(s, rest, ptr, p, len);
    SetKeeps(s1, rest, next, p, len);
    SetKeeps(s2, ptr, rest, p, len);
    SetKeeps(s3, next, rest, p, len);
    SetKeeps(s4, rest, 0, p, len);
    SetKeeps(s5, ptr, 1, p, len);
  }

  /** mem_realloc's writes when it cuts the block at ptr off at rest. */
  function SplitBytes(s: seq<u8>, ptr: int, rest: int, next: int): (r: seq<u8>)
    requires |s| == RAM_SIZE && 0 <= ptr && ptr + HEADER <= rest && rest + HEADER <= next <= MEM_SIZE
    ensures |r| == RAM_SIZE
  {
    var s1 := SetUsed(s, rest, 0);
    var s2 := SetNext(s1, rest, next);
    var s3 := SetPrev(s2, rest, ptr);
    var s4 := SetNext(s3, ptr, rest);
    if next != MEM_SIZE then SetPrev(s4, next, rest) else s4
  }

  lemma SplitHeader(s: seq<u8>, ptr: int, rest: int, next: int, q: int)
    requires |s| == RAM_SIZE && 0 <= ptr && ptr + HEADER <= rest && rest + HEADER <= next <= MEM_SIZE
    requires 0 <= q <= MEM_SIZE && Apart(ptr, q) && Apart(rest, q) && Apart(next, q)
    ensures Header(SplitBytes(s, ptr, rest, next), q) ==
              if q == rest then Fields(next, ptr, 0)
              else if q == ptr then Header(s, q).(next := rest)
              else if q == next && next != MEM_SIZE then Header(s, q).(prev := rest)
              else Header(s, q)
  {
    hide SetNext;
    hide SetPrev;
    hide SetUsed;
    hide Header;
    var s1 := SetUsed(s, rest, 0);
    var s2 := SetNext(s1, rest, next);
    var s3 := SetPrev(s2, rest, ptr);
    var s4 := SetNext(s3, ptr, rest);
    SetAt(s, rest, 0, q);
    SetAt(s1, rest, next, q);
    SetAt(s2, rest, ptr, q);
    SetAt(s3, ptr, rest, q);
    SetAt(s4, next, rest, q);
  }

  lemma SplitKept(s: seq<u8>, ptr: int, rest: int, next: int, p: int, len: int)
    requires |s| == RAM_SIZE && 0 <= ptr && ptr + HEADER <= rest && rest + HEADER <= next <= MEM_SIZE
    requires Misses(p, len, ptr) && Misses(p, len, rest) && Misses(p, len, next)
    ensures Kept(s, SplitBytes(s, ptr, rest, next), p, len)
  {
    hide SetNext;
    hide SetPrev;
    hide SetUsed;
    hide Header;
    var s1 := SetUsed(s, rest, 0);
    var s2 := SetNext(s1, rest, next);
    var s3 := SetPrev(s2, rest, ptr);
    var s4 := SetNext(s3, ptr, rest);
    SetKeeps(s, rest, 0, p, len);
    SetKeeps(s1, rest, next, p, len);
    SetKeeps(s2, rest, ptr, p, len);
    SetKeeps(s3, ptr, rest, p, len);
    SetKeeps(s4, next, rest, p, len);
  }

  /** plug_holes' writes when the block at mem gets the following block, up to next; the prev of the header
      there is written even when it is the sentinel's. */
  function MergeBytes(s: seq<u8>, mem: int, next: int): (r: seq<u8>)
    requires |s| == RAM_SIZE && 0 <= mem <= MEM_SIZE && 0 <= next <= MEM_SIZE
    ensures |r| == RAM_SIZE
  {
    var s1 := SetNext(s, mem, next);
    SetPrev(s1, next, mem)
  }

  lemma MergeHeader(s: seq<u8>, mem: int, next: int, q: int)
    requires |s| == RAM_SIZE && 0 <= mem <= MEM_SIZE && 0 <= next <= MEM_SIZE
    requires 0 <= q <= MEM_SIZE && Apart(mem, q) && Apart(next, q) && mem != next
    ensures Header(MergeBytes(s, mem, next), q) ==
              if q == mem then Header(s, q).(next := next)
              else if q == next then Header(s, q).(prev := mem)
              else Header(s, q)
  {
    hide SetNext;
    hide SetPrev;
    hide SetUsed;
    hide Header;
    SetAt(s, mem, next, q);
    SetAt(SetNext(s, mem, next), next, mem, q);
  }

  lemma MergeKept(s: seq<u8>, mem: int, next: int, p: int, len: int)
    requires |s| == RAM_SIZE && 0 <= mem <= MEM_SIZE && 0 <= next <= MEM_SIZE
    requires Misses(p, len, mem) && Misses(p, len, next)
    ensures Kept(s, MergeBytes(s, mem, next), p, len)
  {
    hide SetNext;
    hide SetPrev;
    hide SetUsed;
    hide Header;
    SetKeeps(s, mem, next, p, len);
    SetKeeps(SetNext(s, mem, next), next, mem, p, len);
  }

  // ---------------------------------------------------------------------------------------------
  // The bytes follow the chain

  lemma OffsetsApart(h: State, i: nat, k: nat)
    requires Tiles(h.blocks) && i < |h.blocks| && k < |h.blocks|
    ensures Apart(h.blocks[i].off, h.blocks[k].off)
    ensures i < k ==> h.End(i) <= h.blocks[k].off
    ensures 0 <= h.blocks[i].off && h.blocks[i].off + HEADER <= h.End(i) <= MEM_SIZE && Apart(h.End(i), h.blocks[k].off)
    ensures h.blocks[i].off == h.blocks[k].off ==> i == k
    ensures h.End(i) == h.blocks[k].off ==> k == i + 1
  {
    if i + 1 < k {
      assert h.blocks[i + 1].off + HEADER <= h.blocks[k].off;
    }
    if k < i {
      assert h.blocks[k].off + HEADER <= h.blocks[i].off;
    }
  }

  /** What a new header at rest inside block i does to the header at q. */
  predicate SplitAtQ(s: seq<u8>, r: seq<u8>, h: State, i: nat, used: bool, rest: int, q: int)
    requires i < |h.blocks| && |r| == |s| == RAM_SIZE && SplitApart(h, i, rest, q)
  {
    Header(r, q) ==
      if q == rest then Fields(h.End(i), h.blocks[i].off, 0)
      else if q == h.blocks[i].off then Header(s, q).(next := rest, used := if used then 1 else 0)
      else if q == h.End(i) && q != MEM_SIZE then Header(s, q).(prev := rest)
      else Header(s, q)
  }

  /** The three places where a new header inside block i is written. */
  predicate SplitApart(h: State, i: nat, rest: int, q: int)
    requires i < |h.blocks|
  {
    0 <= q <= MEM_SIZE && Apart(h.blocks[i].off, q) && Apart(rest, q) && Apart(h.End(i), q)
  }

  lemma SplitAtOffsets(h: State, i: nat, used: bool, rest: int, j: nat)
    requires Tiles(h.blocks) && i < |h.blocks| && j <= |h.blocks|
    requires h.blocks[i].off + HEADER <= rest && rest + HEADER <= h.End(i)
    ensures SplitApart(h, i, rest, SplitAt(h.blocks, i, used, rest)[j].off)
    ensures SplitApart(h, i, rest, MEM_SIZE)
    ensures j != i + 1 ==> SplitAt(h.blocks, i, used, rest)[j].off != rest
  {
    hide SplitAt;
    OffsetsApart(h, i, i);
    if j != i + 1 {
      OffsetsApart(h, i, if j <= i then j else j - 1);
      OffsetsApart(h, if j <= i then j else j - 1, i);
    }
  }

  /** What the headers have to say after a split, from what they had to say before. */
  lemma HeaderOfSplit(h: State, i: nat, used: bool, rest: int, lfree: int, j: nat)
    requires i < |h.blocks| && j <= |h.blocks|
    ensures HeaderOf(State(SplitAt(h.blocks, i, used, rest), lfree), j) ==
            if j == i + 1 then Fields(h.End(i), h.blocks[i].off, 0)
            else if j == i then HeaderOf(h, i).(next := rest, used := if used then 1 else 0)
            else if j == i + 2 then HeaderOf(h, i + 1).(prev := rest)
            else if j < i then HeaderOf(h, j)
            else HeaderOf(h, j - 1)
  {
    hide SplitAt;
  }

  lemma SplitAtHeader(s: seq<u8>, r: seq<u8>, h: State, i: nat, used: bool, rest: int, lfree: int, j: nat)
    requires Holds(s, h) && i < |h.blocks| && |r| == RAM_SIZE && j <= |h.blocks|
    requires h.blocks[i].off + HEADER <= rest && rest + HEADER <= h.End(i)
    requires SplitApart(h, i, rest, SplitAt(h.blocks, i, used, rest)[j].off)
    requires SplitAtQ(s, r, h, i, used, rest, SplitAt(h.blocks, i, used, rest)[j].off)
    ensures Header(r, SplitAt(h.blocks, i, used, rest)[j].off) ==
            HeaderOf(State(SplitAt(h.blocks, i, used, rest), lfree), j)
  {
    hide SplitAt;
    hide Header;
    hide Tiles;
    hide HeaderOf;
    HeaderOfSplit(h, i, used, rest, lfree, j);
    if j != i + 1 {
      var k := if j <= i then j else j - 1;
      OffsetsApart(h, i, k);
      OffsetsApart(h, k, i);
      SplitAtOffsets(h, i, used, rest, j);
      assert Header(s, h.blocks[k].off) == HeaderOf(h, k);
    }
  }

  /** A new header inside block i, as the chain and as bytes. */
  lemma SplitAtHolds(s: seq<u8>, r: seq<u8>, h: State, i: nat, used: bool, rest: int, lfree: int)
    requires Holds(s, h) && i < |h.blocks| && |r| == RAM_SIZE
    requires h.blocks[i].off + HEADER <= rest && rest + HEADER <= h.End(i)
    requires Tiles(SplitAt(h.blocks, i, used, rest))
    requires forall q :: SplitApart(h, i, rest, q) ==> SplitAtQ(s, r, h, i, used, rest, q)
    ensures Holds(r, State(SplitAt(h.blocks, i, used, rest), lfree))
  {
    hide SplitAt;
    hide Header;
    hide HeaderOf;
    hide SplitAtQ;
    hide SplitApart;
    var h' := State(SplitAt(h.blocks, i, used, rest), lfree);
    forall j: nat | j < |h'.blocks| ensures Header(r, h'.blocks[j].off) == HeaderOf(h', j) {
      SplitAtOffsets(h, i, used, rest, j);
      SplitAtHeader(s, r, h, i, used, rest, lfree, j);
    }
    SentinelSame(s, r, h, i, used, rest);
  }

  lemma SentinelSame(s: seq<u8>, r: seq<u8>, h: State, i: nat, used: bool, rest: int)
    requires Holds(s, h) && i < |h.blocks| && |r| == RAM_SIZE
    requires h.blocks[i].off + HEADER <= rest && rest + HEADER <= h.End(i)
    requires SplitApart(h, i, rest, MEM_SIZE) ==> SplitAtQ(s, r, h, i, used, rest, MEM_SIZE)
    ensures Header(r, MEM_SIZE) == Header(s, MEM_SIZE)
  {
    hide Header;
    OffsetsApart(h, i, i);
  }

  /** What the headers have to say after a merge, from what they had to say before. */
  lemma HeaderOfMerge(h: State, k: nat, lfree: int, j: nat)
    requires 0 < k < |h.blocks| && j < |h.blocks| - 1
    ensures HeaderOf(State(RemoveAt(h.blocks, k), lfree), j) ==
            if j == k - 1 then HeaderOf(h, j).(next := h.End(k))
            else if j == k then HeaderOf(h, k + 1).(prev := h.blocks[k - 1].off)
            else if j < k then HeaderOf(h, j)
            else HeaderOf(h, j + 1)
  {
    hide RemoveAt;
  }

  /** plug_holes' writes, seen at the header of block m. */
  lemma MergeWrites(s: seq<u8>, r: seq<u8>, h: State, k: nat, m: nat)
    requires Tiles(h.blocks) && 0 < k < |h.blocks| && m < |h.blocks| && m != k && |s| == RAM_SIZE
    requires 0 <= h.blocks[k - 1].off <= MEM_SIZE && 0 <= h.blocks[m].off <= MEM_SIZE && 0 <= h.End(k) <= MEM_SIZE
    requires r == MergeBytes(s, h.blocks[k - 1].off, h.End(k))
    ensures Header(r, h.blocks[m].off) ==
            if m == k - 1 then Header(s, h.blocks[m].off).(next := h.End(k))
            else if m == k + 1 then Header(s, h.blocks[m].off).(prev := h.blocks[k - 1].off)
            else Header(s, h.blocks[m].off)
  {
    hide Header;
    hide MergeBytes;
    OffsetsApart(h, k, m);
    OffsetsApart(h, k - 1, m);
    OffsetsApart(h, k, k - 1);
    hide Tiles;
    MergeHeader(s, h.blocks[k - 1].off, h.End(k), h.blocks[m].off);
  }

  lemma OffsetBounds(blocks: seq<Block>)
    requires Tiles(blocks)
    ensures forall i :: 0 <= i < |blocks| ==> 0 <= blocks[i].off <= MEM_SIZE - HEADER
  {
  }

  /** Block k becomes part of the one before, as the chain and as bytes. */
  lemma MergeHolds(s: seq<u8>, h: State, k: nat, lfree: int)
    requires Holds(s, h) && 0 < k < |h.blocks|
    ensures 0 <= h.blocks[k - 1].off <= MEM_SIZE && 0 <= h.End(k) <= MEM_SIZE
    ensures Holds(MergeBytes(s, h.blocks[k - 1].off, h.End(k)), State(RemoveAt(h.blocks, k), lfree))
  {
    hide RemoveAt;
    hide Header;
    hide MergeBytes;
    hide HeaderOf;
    hide Tiles;
    RemoveTiles(h.blocks, k);
    OffsetsApart(h, k, k - 1);
    OffsetsApart(h, k - 1, k - 1);
    var h' := State(RemoveAt(h.blocks, k), lfree);
    OffsetBounds(h.blocks);
    OffsetBounds(h'.blocks);
    var r := MergeBytes(s, h.blocks[k - 1].off, h.End(k));
    forall j: nat | j < |h'.blocks| ensures Header(r, h'.blocks[j].off) == HeaderOf(h', j) {
      var m := if j < k then j else j + 1;
      HeaderOfMerge(h, k, lfree, j);
      MergeWrites(s, r, h, k, m);
      assert Header(s, h.blocks[m].off) == HeaderOf(h, m);
    }
    MergeHeader(s, h.blocks[k - 1].off, h.End(k), MEM_SIZE);
  }

  lemma HeaderOfMarkFree(h: State, i: nat, j: nat)
    requires i < |h.blocks| && j < |h.blocks|
    ensures HeaderOf(MarkFree(h, i), j) == if j == i then HeaderOf(h, j).(used := 0) else HeaderOf(h, j)
  {
  }

  lemma MarkFreeHeader(s: seq<u8>, h: State, i: nat, j: nat)
    requires Holds(s, h) && i < |h.blocks| && j < |h.blocks|
    requires 0 <= h.blocks[i].off <= MEM_SIZE && 0 <= h.blocks[j].off <= MEM_SIZE
    ensures Header(SetUsed(s, h.blocks[i].off, 0), h.blocks[j].off) == HeaderOf(MarkFree(h, i), j)
  {
    hide SetUsed;
    hide Header;
    hide HeaderOf;
    hide MarkFree;
    HeaderOfMarkFree(h, i, j);
    OffsetsApart(h, i, j);
    assert Header(s, h.blocks[j].off) == HeaderOf(h, j);
    hide Tiles;
    hide Holds;
    SetAt(s, h.blocks[i].off, 0, h.blocks[j].off);
  }

  lemma MarkFreeOffsets(h: State, i: nat)
    requires i < |h.blocks|
    ensures |MarkFree(h, i).blocks| == |h.blocks|
    ensures forall j :: 0 <= j < |h.blocks| ==> MarkFree(h, i).blocks[j].off == h.blocks[j].off
  {
  }

  lemma MarkFreeHolds(s: seq<u8>, h: State, i: nat)
    requires Holds(s, h) && i < |h.blocks| && Tiles(MarkFree(h, i).blocks)
    ensures 0 <= h.blocks[i].off <= MEM_SIZE && Holds(SetUsed(s, h.blocks[i].off, 0), MarkFree(h, i))
  {
    hide SetUsed;
    hide Header;
    hide HeaderOf;
    hide MarkFree;
    OffsetBounds(h.blocks);
    OffsetsApart(h, i, i);
    MarkFreeOffsets(h, i);
    hide Tiles;
    var r, h' := SetUsed(s, h.blocks[i].off, 0), MarkFree(h, i);
    SetAt(s, h.blocks[i].off, 0, MEM_SIZE);
    forall j: nat | j < |h'.blocks| ensures Header(r, h'.blocks[j].off) == HeaderOf(h', j) {
      MarkFreeHeader(s, h, i, j);
    }
  }

  lemma TakeWrites(s: seq<u8>, r: seq<u8>, h: State, i: nat, rest: int, q: int)
    requires i < |h.blocks| && |s| == RAM_SIZE && 0 <= h.blocks[i].off && h.blocks[i].off + HEADER <= rest
    requires rest + HEADER <= h.End(i) <= MEM_SIZE && r == TakeBytes(s, h.blocks[i].off, rest, h.End(i))
    requires Header(s, h.blocks[i].off) == HeaderOf(h, i) && SplitApart(h, i, rest, q)
    ensures SplitAtQ(s, r, h, i, true, rest, q)
  {
    hide Header;
    hide TakeBytes;
    TakeHeader(s, h.blocks[i].off, rest, h.End(i), q);
  }

  lemma TakeHolds(s: seq<u8>, h: State, i: nat, n: nat)
    requires Holds(s, h) && i < |h.blocks| && n + HEADER <= h.Room(i)
    ensures 0 <= h.blocks[i].off && h.End(i) <= MEM_SIZE
    ensures Holds(TakeBytes(s, h.blocks[i].off, h.blocks[i].off + HEADER + n, h.End(i)), Take(h, i, n))
  {
    hide Header;
    hide SplitAt;
    hide SplitAtQ;
    hide TakeBytes;
    hide HeaderOf;
    hide Tiles;
    var ptr, rest := h.blocks[i].off, h.blocks[i].off + HEADER + n;
    SplitTiles(h, i, n, true);
    OffsetsApart(h, i, i);
    assert Header(s, ptr) == HeaderOf(h, i);
    var r := TakeBytes(s, ptr, rest, h.End(i));
    forall q | SplitApart(h, i, rest, q) ensures SplitAtQ(s, r, h, i, true, rest, q) {
      TakeWrites(s, r, h, i, rest, q);
    }
    hide SplitApart;
    SplitAtHolds(s, r, h, i, true, rest, Take(h, i, n).lfree);
  }

  lemma SplitWrites(s: seq<u8>, r: seq<u8>, h: State, i: nat, rest: int, q: int)
    requires i < |h.blocks| && |s| == RAM_SIZE && 0 <= h.blocks[i].off && h.blocks[i].off + HEADER <= rest
    requires rest + HEADER <= h.End(i) <= MEM_SIZE && r == SplitBytes(s, h.blocks[i].off, rest, h.End(i))
    requires Header(s, h.blocks[i].off) == HeaderOf(h, i) && SplitApart(h, i, rest, q)
    ensures SplitAtQ(s, r, h, i, h.blocks[i].used, rest, q)
  {
    hide Header;
    hide SplitBytes;
    SplitHeader(s, h.blocks[i].off, rest, h.End(i), q);
  }

  lemma SplitHolds(s: seq<u8>, h: State, i: nat, n: nat)
    requires Holds(s, h) && i < |h.blocks| && n + HEADER <= h.Room(i)
    ensures 0 <= h.blocks[i].off && h.End(i) <= MEM_SIZE
    ensures Holds(SplitBytes(s, h.blocks[i].off, h.blocks[i].off + HEADER + n, h.End(i)), Split(h, i, n))
  {
    hide Header;
    hide SplitAt;
    hide SplitAtQ;
    hide SplitBytes;
    hide HeaderOf;
    hide Tiles;
    var ptr, rest := h.blocks[i].off, h.blocks[i].off + HEADER + n;
    SplitTiles(h, i, n, h.blocks[i].used);
    OffsetsApart(h, i, i);
    assert Header(s, ptr) == HeaderOf(h, i);
    var r := SplitBytes(s, ptr, rest, h.End(i));
    forall q | SplitApart(h, i, rest, q) ensures SplitAtQ(s, r, h, i, h.blocks[i].used, rest, q) {
      SplitWrites(s, r, h, i, rest, q);
    }
    hide SplitApart;
    SplitAtHolds(s, r, h, i, h.blocks[i].used, rest, Split(h, i, n).lfree);
  }

  // ---------------------------------------------------------------------------------------------
  // The allocated memory is not written

  /** Allocated memory meets no header. */
  lemma LiveMisses(h: State, p: int, len: int, i: nat)
    requires Tiles(h.blocks) && Live(h, p, len) && i < |h.blocks|
    ensures Misses(p, len, h.blocks[i].off) && Misses(p, len, h.End(i))
    ensures h.blocks[i].off + HEADER != p ==> p + len <= h.blocks[i].off || h.End(i) <= p
  {
    var m: nat :| m < |h.blocks| && IsPiece(h, m, p, len);
    OffsetsApart(h, m, i);
    OffsetsApart(h, i, m);
  }

  lemma MergeLiveKept(s: seq<u8>, h: State, k: nat, p: int, len: int)
    requires Tiles(h.blocks) && 0 < k < |h.blocks| && Live(h, p, len) && |s| == RAM_SIZE
    requires 0 <= h.blocks[k - 1].off <= MEM_SIZE && 0 <= h.End(k) <= MEM_SIZE
    ensures Kept(s, MergeBytes(s, h.blocks[k - 1].off, h.End(k)), p, len)
  {
    hide Live;
    hide Header;
    hide MergeBytes;
    hide Kept;
    hide Tiles;
    LiveMisses(h, p, len, k);
    LiveMisses(h, p, len, k - 1);
    MergeKept(s, h.blocks[k - 1].off, h.End(k), p, len);
  }

  lemma TakeLiveKept(s: seq<u8>, h: State, i: nat, rest: int, p: int, len: int)
    requires Tiles(h.blocks) && i < |h.blocks| && !h.blocks[i].used && Live(h, p, len) && |s| == RAM_SIZE
    requires 0 <= h.blocks[i].off && h.blocks[i].off + HEADER <= rest && rest + HEADER <= h.End(i) <= MEM_SIZE
    ensures Kept(s, TakeBytes(s, h.blocks[i].off, rest, h.End(i)), p, len)
  {
    hide Header;
    hide TakeBytes;
    hide Kept;
    hide Live;
    hide Tiles;
    FreeIsNotLive(h, i, len);
    LiveMisses(h, p, len, i);
    TakeKept(s, h.blocks[i].off, rest, h.End(i), p, len);
  }

  /** Cutting a block writes to no other allocated memory, and not to the part that remains. */
  lemma SplitLiveKept(s: seq<u8>, h: State, i: nat, n: nat, rest: int, p: int, len: int)
    requires Tiles(h.blocks) && i < |h.blocks| && h.blocks[i].used && Live(Split(h, i, n), p, len) && |s| == RAM_SIZE
    requires 0 <= h.blocks[i].off && rest == h.blocks[i].off + HEADER + n && rest + HEADER <= h.End(i) <= MEM_SIZE
    ensures Kept(s, SplitBytes(s, h.blocks[i].off, rest, h.End(i)), p, len)
  {
    hide Header;
    hide SplitBytes;
    hide Kept;
    hide Live;
    hide Tiles;
    hide SplitAt;
    SplitLive(h, i, true, n, h.lfree, p, len);
    if p != h.blocks[i].off + HEADER {
      LiveMisses(h, p, len, i);
    }
    SplitKept(s, h.blocks[i].off, rest, h.End(i), p, len);
  }

  // ---------------------------------------------------------------------------------------------
  // What the allocator reads

  /** The header of block i, as it is read by the allocator. */
  lemma ReadHeader(s: seq<u8>, h: State, i: nat)
    requires Holds(s, h) && i < |h.blocks|
    ensures |s| == RAM_SIZE && Tiles(h.blocks) && 0 <= h.blocks[i].off
            && h.blocks[i].off + HEADER <= h.End(i) <= MEM_SIZE
    ensures Header(s, h.blocks[i].off).next == h.End(i)
    ensures Header(s, h.blocks[i].off).used == if h.blocks[i].used then 1 else 0
    ensures Header(s, h.blocks[i].off).prev == if i == 0 then h.blocks[i].off else h.blocks[i - 1].off
    ensures i > 0 ==> h.blocks[i - 1].off < h.blocks[i].off
  {
    OffsetsApart(h, i, i);
    assert Header(s, h.blocks[i].off) == HeaderOf(h, i);
  }

  lemma ReadSentinel(s: seq<u8>, h: State)
    requires Holds(s, h)
    ensures Header(s, MEM_SIZE).used == 1 && Header(s, MEM_SIZE).next == MEM_SIZE
  {
  }

  /** mem_init's writes. */
  function InitBytes(s: seq<u8>): seq<u8>
    requires |s| == RAM_SIZE
  {
    var s1 := SetUsed(SetPrev(SetNext(s, 0, MEM_SIZE), 0, 0), 0, 0);
    SetPrev(SetNext(SetUsed(s1, MEM_SIZE, 1), MEM_SIZE, MEM_SIZE), MEM_SIZE, MEM_SIZE)
  }

  lemma InitHolds(s: seq<u8>)
    requires |s| == RAM_SIZE
    ensures Holds(InitBytes(s), INITIAL)
  {
    hide SetNext;
    hide SetPrev;
    hide SetUsed;
    hide Header;
    var s1 := SetUsed(SetPrev(SetNext(s, 0, MEM_SIZE), 0, 0), 0, 0);
    assert Header(s1, 0) == Fields(MEM_SIZE, 0, 0);
    var s2 := SetUsed(s1, MEM_SIZE, 1);
    var s3 := SetNext(s2, MEM_SIZE, MEM_SIZE);
    SetAt(s1, MEM_SIZE, 1, 0);
    SetAt(s2, MEM_SIZE, MEM_SIZE, 0);
    SetAt(s3, MEM_SIZE, MEM_SIZE, 0);
  }

  /** What plug_holes reads and writes forward is the merge with a free successor. */
  lemma ForwardImage(s: seq<u8>, h: State, i: nat, mem: int)
    requires Holds(s, h) && i < |h.blocks| && h.blocks[i] == Block(mem, false)
    ensures 0 <= mem <= MEM_SIZE && |s| == RAM_SIZE
    ensures var nmem := Header(s, mem).next;
            && 0 <= nmem <= MEM_SIZE
            && if mem != nmem && Header(s, nmem).used == 0 && nmem != MEM_SIZE
               then
                 && 0 <= Header(s, nmem).next <= MEM_SIZE
                 && Holds(MergeBytes(s, mem, Header(s, nmem).next), MergeNext(h, i))
                 && MergeNext(h, i).lfree == (if h.lfree == nmem then mem else h.lfree)
                 && forall p, len :: Live(h, p, len) ==> Kept(s, MergeBytes(s, mem, Header(s, nmem).next), p, len)
               else MergeNext(h, i) == h
  {
    hide Holds;
    hide Header;
    hide MergeBytes;
    hide Live;
    hide Kept;
    hide RemoveAt;
    hide Tiles;
    ReadHeader(s, h, i);
    ReadSentinel(s, h);
    if i + 1 < |h.blocks| {
      ReadHeader(s, h, i + 1);
      MergeHolds(s, h, i + 1, MergeNext(h, i).lfree);
      forall p, len | Live(h, p, len) ensures Kept(s, MergeBytes(s, mem, h.End(i + 1)), p, len) {
        MergeLiveKept(s, h, i + 1, p, len);
      }
    }
  }

  lemma MergeNextAt(h: State, i: nat)
    requires i < |h.blocks|
    ensures i < |MergeNext(h, i).blocks| && MergeNext(h, i).blocks[i] == h.blocks[i]
  {
  }

  lemma MergeNextLive(h: State, i: nat, p: int, len: int)
    requires i < |h.blocks| && !h.blocks[i].used
    ensures Live(MergeNext(h, i), p, len) <==> Live(h, p, len)
  {
    hide Live;
    hide RemoveAt;
    if i + 1 < |h.blocks| && !h.blocks[i + 1].used {
      RemoveLive(h, i + 1, MergeNext(h, i).lfree, p, len);
    }
  }

  /** What plug_holes reads and writes backward is the merge with a free predecessor. */
  lemma BackwardImage(s: seq<u8>, h: State, i: nat, mem: int)
    requires Holds(s, h) && i < |h.blocks| && h.blocks[i] == Block(mem, false)
    ensures 0 <= mem <= MEM_SIZE && |s| == RAM_SIZE
    ensures var pmem := Header(s, mem).prev;
            && 0 <= pmem <= MEM_SIZE
            && if pmem != mem && Header(s, pmem).used == 0
               then
                 && 0 <= Header(s, mem).next <= MEM_SIZE
                 && Holds(MergeBytes(s, pmem, Header(s, mem).next), MergePrev(h, i))
                 && MergePrev(h, i).lfree == (if h.lfree == mem then pmem else h.lfree)
                 && forall p, len :: Live(h, p, len) ==> Kept(s, MergeBytes(s, pmem, Header(s, mem).next), p, len)
               else MergePrev(h, i) == h
  {
    hide Holds;
    hide Header;
    hide MergeBytes;
    hide Live;
    hide Kept;
    hide RemoveAt;
    hide Tiles;
    ReadHeader(s, h, i);
    if i > 0 {
      ReadHeader(s, h, i - 1);
      MergeHolds(s, h, i, MergePrev(h, i).lfree);
      forall p, len | Live(h, p, len) ensures Kept(s, MergeBytes(s, h.blocks[i - 1].off, h.End(i)), p, len) {
        MergeLiveKept(s, h, i, p, len);
      }
    }
  }

  /** What mem_free writes before it plugs the holes. */
  lemma FreeImage(s: seq<u8>, h: State, i: nat, mem: int)
    requires Holds(s, h) && Ok(h) && i < |h.blocks| && h.blocks[i] == Block(mem, true)
    ensures 0 <= mem <= MEM_SIZE && |s| == RAM_SIZE
    ensures Holds(SetUsed(s, mem, 0), MarkFree(h, i))
    ensures MarkFree(h, i).lfree == if mem < h.lfree then mem else h.lfree
    ensures i < |MarkFree(h, i).blocks| && MarkFree(h, i).blocks[i] == Block(mem, false)
    ensures Heap.PlugHoles(MarkFree(h, i), i) == Heap.Free(h, i)
    ensures Ok(Heap.Free(h, i))
  {
    MarkFreeKeeps(h, i);
    MarkFreeHolds(s, h, i);
    FreeKeeps(h, i);
  }

  lemma FreeKeptAt(h: State, i: nat, s: seq<u8>, s1: seq<u8>, s2: seq<u8>, p: int, len: int)
    requires Ok(h) && i < |h.blocks| && h.blocks[i].used && Live(Heap.Free(h, i), p, len) && |s| == RAM_SIZE
    requires 0 <= h.blocks[i].off <= MEM_SIZE && s1 == SetUsed(s, h.blocks[i].off, 0)
    requires Live(MarkFree(h, i), p, len) ==> Kept(s1, s2, p, len)
    ensures Kept(s, s2, p, len)
  {
    hide Kept;
    hide Live;
    hide Ok;
    hide SetUsed;
    OkTiles(h);
    FreeLive(h, i, p, len);
    MarkFreeLive(h, i, p, len);
    LiveMisses(h, p, len, i);
    SetKeeps(s, h.blocks[i].off, 0, p, len);
    KeptThrough(s, s1, s2, p, len);
  }

  lemma FreeKept(h: State, i: nat, mem: int, s: seq<u8>, s1: seq<u8>, s2: seq<u8>)
    requires Ok(h) && i < |h.blocks| && h.blocks[i] == Block(mem, true) && |s| == RAM_SIZE
    requires 0 <= mem <= MEM_SIZE && s1 == SetUsed(s, mem, 0)
    requires forall p, len :: Live(MarkFree(h, i), p, len) ==> Kept(s1, s2, p, len)
    ensures forall p, len :: Live(Heap.Free(h, i), p, len) ==> Kept(s, s2, p, len)
  {
    hide Kept;
    hide Live;
    hide Ok;
    hide Heap.Free;
    hide MarkFree;
    hide SetUsed;
    forall p, len | Live(Heap.Free(h, i), p, len) ensures Kept(s, s2, p, len) {
      FreeKeptAt(h, i, s, s1, s2, p, len);
    }
  }

  /** The offset of the block at index k, or the end of memory. */
  function OffsetOf(h: State, k: nat): int
    requires k <= |h.blocks|
  {
    if k < |h.blocks| then h.blocks[k].off else MEM_SIZE
  }

  /** The first free block at or after index k, or the end of memory. */
  function NextFree(h: State, k: nat): int
    requires k <= |h.blocks|
    decreases |h.blocks| - k
  {
    if k < |h.blocks| && h.blocks[k].used then NextFree(h, k + 1) else OffsetOf(h, k)
  }

  /** After the block the hint points to was taken, the next free block is the one split off. */
  lemma NextFreeAfterTake(h: State, i: nat, n: nat)
    requires i < |h.blocks| && h.lfree == h.blocks[i].off
    ensures NextFree(Take(h, i, n), i) == Take(h, i, n).lfree
  {
    hide SplitAt;
    var h' := Take(h, i, n);
    assert NextFree(h', i + 1) == h'.blocks[i + 1].off;
  }

  /** What mem_realloc writes before it plugs the holes. */
  lemma SplitImage(s: seq<u8>, h: State, i: nat, ptr: int, rest: int, size: nat)
    requires Holds(s, h) && Ok(h) && i < |h.blocks| && h.blocks[i] == Block(ptr, true) && Shrinks(h, i, size)
    requires rest == ptr + HEADER + Rounded(size)
    ensures |s| == RAM_SIZE && 0 <= ptr && ptr + HEADER <= rest && rest + HEADER <= h.End(i) <= MEM_SIZE
    ensures Header(s, ptr).next == h.End(i)
    ensures Holds(SplitBytes(s, ptr, rest, h.End(i)), Split(h, i, Rounded(size)))
    ensures Split(h, i, Rounded(size)).lfree == h.lfree
    ensures i + 1 < |Split(h, i, Rounded(size)).blocks|
    ensures Split(h, i, Rounded(size)).blocks[i + 1] == Block(rest, false)
    ensures Heap.PlugHoles(Split(h, i, Rounded(size)), i + 1) == Heap.Realloc(h, i, size)
    ensures Ok(Heap.Realloc(h, i, size))
  {
    hide Holds;
    hide Ok;
    hide Header;
    hide SplitAt;
    hide SplitBytes;
    hide Heap.PlugHoles;
    ReadHeader(s, h, i);
    ReallocKeeps(h, i, size);
    hide Rounded;
    SplitHolds(s, h, i, Rounded(size));
  }

  lemma ReallocKeptAt(h: State, i: nat, rest: int, size: nat, s: seq<u8>, s1: seq<u8>, s2: seq<u8>, p: int, len: int)
    requires Tiles(h.blocks) && i < |h.blocks| && h.blocks[i].used && Shrinks(h, i, size) && |s| == RAM_SIZE
    requires Live(Heap.Realloc(h, i, size), p, len)
    requires 0 <= h.blocks[i].off && rest == h.blocks[i].off + HEADER + Rounded(size)
             && rest + HEADER <= h.End(i) <= MEM_SIZE
    requires s1 == SplitBytes(s, h.blocks[i].off, rest, h.End(i))
    requires Live(Split(h, i, Rounded(size)), p, len) ==> Kept(s1, s2, p, len)
    ensures Kept(s, s2, p, len)
  {
    hide Kept;
    hide Live;
    hide Tiles;
    hide SplitBytes;
    hide SplitAt;
    hide Heap.PlugHoles;
    hide Rounded;
    PlugLive(Split(h, i, Rounded(size)), i + 1, p, len);
    SplitLiveKept(s, h, i, Rounded(size), rest, p, len);
    KeptThrough(s, s1, s2, p, len);
  }

  lemma ReallocKept(h: State, i: nat, rest: int, size: nat, s: seq<u8>, s1: seq<u8>, s2: seq<u8>)
    requires Ok(h) && i < |h.blocks| && h.blocks[i].used && Shrinks(h, i, size) && |s| == RAM_SIZE
    requires 0 <= h.blocks[i].off && rest == h.blocks[i].off + HEADER + Rounded(size)
             && rest + HEADER <= h.End(i) <= MEM_SIZE
    requires s1 == SplitBytes(s, h.blocks[i].off, rest, h.End(i))
    requires forall p, len :: Live(Split(h, i, Rounded(size)), p, len) ==> Kept(s1, s2, p, len)
    ensures forall p, len :: Live(Heap.Realloc(h, i, size), p, len) ==> Kept(s, s2, p, len)
  {
    hide Kept;
    hide Live;
    hide Ok;
    hide Tiles;
    hide SplitBytes;
    hide Split;
    hide Shrinks;
    hide Rounded;
    hide Heap.Realloc;
    OkTiles(h);
    forall p, len | Live(Heap.Realloc(h, i, size), p, len) ensures Kept(s, s2, p, len) {
      ReallocKeptAt(h, i, rest, size, s, s1, s2, p, len);
    }
  }

  /** What the search reads at the block with index k. */
  lemma ReadSearch(s: seq<u8>, h: State, k: nat)
    requires Holds(s, h) && k <= |h.blocks|
    ensures |s| == RAM_SIZE && 0 <= OffsetOf(h, k) <= MEM_SIZE
    ensures Header(s, OffsetOf(h, k)).used == if k < |h.blocks| && !h.blocks[k].used then 0 else 1
    ensures k < |h.blocks| ==> OffsetOf(h, k) < Header(s, OffsetOf(h, k)).next == OffsetOf(h, k + 1) == h.End(k)
    ensures OffsetOf(h, k) == MEM_SIZE <==> k == |h.blocks|
    ensures k < |h.blocks| ==> OffsetOf(h, k) == h.blocks[k].off
    ensures NextFree(h, k) == if k < |h.blocks| && h.blocks[k].used then NextFree(h, k + 1) else OffsetOf(h, k)
  {
    if k < |h.blocks| {
      ReadHeader(s, h, k);
    }
    ReadSentinel(s, h);
  }

  lemma ChosenOffset(h: State, n: nat)
    requires Tiles(h.blocks)
    ensures OffsetOf(h, Chosen(h, n)) >= MEM_SIZE <==> Chosen(h, n) == |h.blocks|
    ensures Chosen(h, n) < |h.blocks| ==> OffsetOf(h, Chosen(h, n)) == h.blocks[Chosen(h, n)].off
  {
  }

  lemma ChosenFits(h: State, n: nat)
    requires Chosen(h, n) < |h.blocks|
    ensures Fits(h, Chosen(h, n), n)
  {
  }

  /** What mem_malloc writes. */
  lemma TakeImage(s: seq<u8>, h: State, i: nat, ptr: int, rest: int, n: nat)
    requires Holds(s, h) && Ok(h) && i < |h.blocks| && Fits(h, i, n)
    requires ptr == h.blocks[i].off && rest == ptr + HEADER + n
    ensures |s| == RAM_SIZE && 0 <= ptr && ptr + HEADER <= rest && rest + HEADER <= h.End(i) <= MEM_SIZE
    ensures Header(s, ptr).next == h.End(i) && Tiles(h.blocks)
    ensures Holds(TakeBytes(s, ptr, rest, h.End(i)), Take(h, i, n))
    ensures i < |Take(h, i, n).blocks| && Take(h, i, n).blocks[i].off == ptr
    ensures Take(h, i, n).lfree == if h.lfree == ptr then NextFree(Take(h, i, n), i) else h.lfree
    ensures Ok(Take(h, i, n))
  {
    hide Holds;
    hide Header;
    hide SplitAt;
    hide TakeBytes;
    hide NextFree;
    hide Ok;
    hide Tiles;
    ReadHeader(s, h, i);
    TakeKeeps(h, i, n);
    TakeHolds(s, h, i, n);
    if h.lfree == ptr {
      NextFreeAfterTake(h, i, n);
    }
  }

  lemma TakeKeepsPayload(s: seq<u8>, h: State, i: nat, ptr: int, rest: int)
    requires Tiles(h.blocks) && i < |h.blocks| && h.blocks[i] == Block(ptr, false) && |s| == RAM_SIZE
    requires 0 <= ptr && ptr + HEADER <= rest && rest + HEADER <= h.End(i) <= MEM_SIZE
    ensures forall p, len :: Live(h, p, len) ==> Kept(s, TakeBytes(s, ptr, rest, h.End(i)), p, len)
  {
    hide Kept;
    hide Live;
    hide TakeBytes;
    hide Tiles;
    forall p, len | Live(h, p, len) ensures Kept(s, TakeBytes(s, ptr, rest, h.End(i)), p, len) {
      TakeLiveKept(s, h, i, rest, p, len);
    }
  }

  // ---------------------------------------------------------------------------------------------

  /** The memory and the hint. */
  class Ram {
    const ram: array<u8>
    var lfree: int
    ghost var h: State

    ghost predicate Consistent()
      reads this, ram
    {
      ram.Length == RAM_SIZE && Holds(ram[..], h) && h.lfree == lfree
    }

    ghost predicate Valid()
      reads this, ram
    {
      Consistent() && Ok(h)
    }

    function At16(p: int): Fields
      reads ram
      requires 0 <= p <= ram.Length - HEADER
    {
      Header(ram[..], p)
    }

    method WriteNext(p: int, v: int)
      requires 0 <= p <= ram.Length - HEADER && 0 <= v < U16
      modifies ram
      ensures ram[..] == SetNext(old(ram[..]), p, v)
    {
      ram[p], ram[p + 1] := Low(v), High(v);
    }

    method WritePrev(p: int, v: int)
      requires 0 <= p <= ram.Length - HEADER && 0 <= v < U16
      modifies ram
      ensures ram[..] == SetPrev(old(ram[..]), p, v)
    {
      ram[p + 2], ram[p + 3] := Low(v), High(v);
    }

    method WriteUsed(p: int, v: int)
      requires 0 <= p <= ram.Length - HEADER && 0 <= v < U16
      modifies ram
      ensures ram[..] == SetUsed(old(ram[..]), p, v)
    {
      ram[p + 4], ram[p + 5] := Low(v), High(v);
    }

    /** mem_init. */
    constructor ()
      ensures Valid() && h == INITIAL && fresh(ram)
    {
      hide Holds;
      hide Header;
      hide SetNext;
      hide SetPrev;
      hide SetUsed;
      hide Ok;
      ram := new u8[RAM_SIZE](_ => 0);
      lfree := 0;
      h := INITIAL;
      new;
      ghost var s := ram[..];
      InitHolds(s);
      InitialOk();
      WriteNext(0, MEM_SIZE);
      WritePrev(0, 0);
      WriteUsed(0, 0);
      WriteUsed(MEM_SIZE, 1);
      WriteNext(MEM_SIZE, MEM_SIZE);
      WritePrev(MEM_SIZE, MEM_SIZE);
    }

    /** plug_holes, forward: a free block after the one at mem becomes part of it. */
    method MergeForward(mem: int, ghost i: nat)
      requires Consistent() && i < |h.blocks| && h.blocks[i] == Block(mem, false)
      modifies this, ram
      ensures Consistent() && h == MergeNext(old(h), i)
      ensures forall p, len :: Live(old(h), p, len) ==> Kept(old(ram[..]), ram[..], p, len)
    {
      hide Holds;
      hide Header;
      hide SetNext;
      hide SetPrev;
      hide Live;
      hide Kept;
      hide MergeNext;
      hide MergePrev;
      ghost var s := ram[..];
      ForwardImage(s, h, i, mem);
      KeptSame(s);
      var nmem := At16(mem).next;
      if mem != nmem && At16(nmem).used == 0 && nmem != MEM_SIZE {
        if lfree == nmem {
          lfree := mem;
        }
        var after := At16(nmem).next;
        WriteNext(mem, after);
        WritePrev(after, mem);
        h := MergeNext(h, i);
      }
    }

    /** plug_holes, backward: the block at mem becomes part of a free block before it. */
    method MergeBackward(mem: int, ghost i: nat)
      requires Consistent() && i < |h.blocks| && h.blocks[i] == Block(mem, false)
      modifies this, ram
      ensures Consistent() && h == MergePrev(old(h), i)
      ensures forall p, len :: Live(old(h), p, len) ==> Kept(old(ram[..]), ram[..], p, len)
    {
      hide Holds;
      hide Header;
      hide SetNext;
      hide SetPrev;
      hide Live;
      hide Kept;
      hide MergeNext;
      hide MergePrev;
      ghost var s := ram[..];
      BackwardImage(s, h, i, mem);
      KeptSame(s);
      var pmem := At16(mem).prev;
      if pmem != mem && At16(pmem).used == 0 {
        if lfree == mem {
          lfree := pmem;
        }
        var after := At16(mem).next;
        WriteNext(pmem, after);
        WritePrev(after, pmem);
        h := MergePrev(h, i);
      }
    }

    method PlugHoles(mem: int, ghost i: nat)
      requires Consistent() && i < |h.blocks| && h.blocks[i] == Block(mem, false)
      modifies this, ram
      ensures Consistent() && h == Heap.PlugHoles(old(h), i)
      ensures forall p, len :: Live(old(h), p, len) ==> Kept(old(ram[..]), ram[..], p, len)
    {
      ghost var s, h0 := ram[..], h;
      MergeForward(mem, i);
      ghost var s1, h1 := ram[..], h;
      MergeNextAt(h0, i);
      MergeBackward(mem, i);
      assert h == Heap.PlugHoles(h0, i);
      hide *;
      forall p, len | Live(h0, p, len) ensures Kept(s, ram[..], p, len) {
        MergeNextLive(h0, i, p, len);
        KeptThrough(s, s1, ram[..], p, len);
      }
    }

    /** mem_free of the allocated block with its header at mem. */
    method Release(mem: int, ghost i: nat)
      requires Valid() && i < |h.blocks| && h.blocks[i] == Block(mem, true)
      modifies this, ram
      ensures Valid() && h == Heap.Free(old(h), i)
      ensures forall p, len :: Live(h, p, len) ==> Kept(old(ram[..]), ram[..], p, len)
    {
      hide Holds;
      hide SetUsed;
      hide Header;
      hide Ok;
      hide Live;
      hide Kept;
      hide MarkFree;
      hide Heap.PlugHoles;
      hide Heap.Free;
      ghost var s, h0 := ram[..], h;
      FreeImage(s, h, i, mem);
      WriteUsed(mem, 0);
      if mem < lfree {
        lfree := mem;
      }
      h := MarkFree(h, i);
      ghost var s1 := ram[..];
      PlugHoles(mem, i);
      FreeKept(h0, i, mem, s, s1, ram[..]);
    }

    /** mem_free.  A pointer outside the memory is ignored; one inside has to be allocated. */
    method Free(rmem: Pointer)
      requires Valid()
      requires rmem.At? && 0 <= rmem.off < MEM_SIZE ==> UsedAt(h, rmem.off) < |h.blocks|
      modifies this, ram
      ensures Valid()
      ensures h == if rmem.At? && 0 <= rmem.off < MEM_SIZE then Heap.Free(old(h), UsedAt(old(h), rmem.off)) else old(h)
      ensures !(rmem.At? && 0 <= rmem.off < MEM_SIZE) ==> ram[..] == old(ram[..])
      ensures forall p, len :: Live(h, p, len) ==> Kept(old(ram[..]), ram[..], p, len)
    {
      hide Holds;
      hide Ok;
      hide Live;
      hide Heap.Free;
      if rmem == Null {
        return;
      }
      if rmem.off < 0 || rmem.off >= MEM_SIZE {
        return;
      }
      Release(rmem.off - HEADER, UsedAt(h, rmem.off));
    }

    /** mem_realloc.  A pointer outside the memory is given back; one inside has to be allocated.  What
        remains of the block, and every other block, keeps its bytes. */
    method Realloc(rmem: Pointer, newsize: nat) returns (r: Pointer)
      requires Valid() && newsize < U16
      requires rmem.At? && 0 <= rmem.off < MEM_SIZE ==> UsedAt(h, rmem.off) < |h.blocks|
      modifies this, ram
      ensures Valid()
      ensures r == if Rounded(newsize) > MEM_SIZE then Null else rmem
      ensures h == if rmem.At? && 0 <= rmem.off < MEM_SIZE
                   then Heap.Realloc(old(h), UsedAt(old(h), rmem.off), newsize) else old(h)
      ensures !(rmem.At? && 0 <= rmem.off < MEM_SIZE) ==> ram[..] == old(ram[..])
      ensures forall p, len :: Live(h, p, len) ==> Kept(old(ram[..]), ram[..], p, len)
    {
      hide Holds;
      hide Ok;
      hide Live;
      hide Heap.PlugHoles;
      hide Header;
      hide Split;
      hide SplitBytes;
      var size := Rounded(newsize);
      hide Rounded;
      if size > MEM_SIZE {
        return Null;
      }
      r := rmem;
      if rmem == Null {
        return;
      }
      if rmem.off < 0 || rmem.off >= MEM_SIZE {
        return;
      }
      ghost var i := UsedAt(h, rmem.off);
      hide UsedAt;
      var ptr := rmem.off - HEADER;
      ReadHeader(ram[..], h, i);
      if size + HEADER + MIN_SIZE < At16(ptr).next - ptr - HEADER {
        Shrink(ptr, ptr + HEADER + size, i, newsize);
      }
    }

    /** Cuts the block at ptr off at rest. */
    method Shrink(ptr: int, rest: int, ghost i: nat, ghost newsize: nat)
      requires Valid() && i < |h.blocks| && h.blocks[i] == Block(ptr, true)
      requires Shrinks(h, i, newsize) && rest == ptr + HEADER + Rounded(newsize)
      modifies this, ram
      ensures Valid() && h == Heap.Realloc(old(h), i, newsize)
      ensures forall p, len :: Live(h, p, len) ==> Kept(old(ram[..]), ram[..], p, len)
    {
      hide Holds;
      hide Ok;
      hide Live;
      hide Kept;
      hide Split;
      hide Heap.PlugHoles;
      hide Heap.Realloc;
      hide SplitBytes;
      hide Rounded;
      hide Shrinks;
      ghost var s, h0 := ram[..], h;
      SplitImage(s, h, i, ptr, rest, newsize);
      CutAt(ptr, rest);
      h := Split(h, i, Rounded(newsize));
      ghost var s1 := ram[..];
      PlugHoles(rest, i + 1);
      ReallocKept(h0, i, rest, newsize, s, s1, ram[..]);
    }

    /** The new header of mem_realloc. */
    method CutAt(ptr: int, rest: int)
      requires ram.Length == RAM_SIZE
      requires 0 <= ptr <= MEM_SIZE && ptr + HEADER <= rest && rest + HEADER <= At16(ptr).next <= MEM_SIZE
      modifies ram
      ensures ram[..] == SplitBytes(old(ram[..]), ptr, rest, old(At16(ptr).next))
    {
      hide Header;
      hide SetNext;
      hide SetPrev;
      hide SetUsed;
      var next := At16(ptr).next;
      WriteUsed(rest, 0);
      WriteNext(rest, next);
      WritePrev(rest, ptr);
      WriteNext(ptr, rest);
      if next != MEM_SIZE {
        WritePrev(next, rest);
      }
    }

    /** The new header of mem_malloc. */
    method TakeAt(ptr: int, rest: int)
      requires ram.Length == RAM_SIZE
      requires 0 <= ptr <= MEM_SIZE && ptr + HEADER <= rest && rest + HEADER <= At16(ptr).next <= MEM_SIZE
      modifies ram
      ensures ram[..] == TakeBytes(old(ram[..]), ptr, rest, old(At16(ptr).next))
    {
      hide Header;
      hide SetNext;
      hide SetPrev;
      hide SetUsed;
      var next := At16(ptr).next;
      WritePrev(rest, ptr);
      WriteNext(rest, next);
      WriteNext(ptr, rest);
      if next != MEM_SIZE {
        WritePrev(next, rest);
      }
      WriteUsed(rest, 0);
      WriteUsed(ptr, 1);
    }

    /** mem_malloc's search, from the hint along the chain. */
    method Search(n: nat) returns (ptr: int)
      requires Valid()
      ensures ptr == OffsetOf(h, Chosen(h, n))
      ensures ptr >= MEM_SIZE <==> Chosen(h, n) == |h.blocks|
    {
      HintIsFree(h);
      ChosenOffset(h, n);
      ptr := lfree;
      ghost var k: nat := Find(h.blocks, h.lfree);
      hide Holds;
      hide Ok;
      hide Find;
      hide Header;
      while ptr < MEM_SIZE
        invariant k <= |h.blocks| && ptr == OffsetOf(h, k)
        invariant Chosen(h, n) == FirstFit(h, k, n)
        decreases MEM_SIZE - ptr
      {
        ReadSearch(ram[..], h, k);
        if At16(ptr).used == 0 && At16(ptr).next - (ptr + HEADER) >= n + HEADER {
          return;
        }
        ptr := At16(ptr).next;
        k := k + 1;
      }
    }

    /** The next free block from the block with index k0 on, along the chain. */
    method SeekFree(start: int, ghost k0: nat) returns (at: int)
      requires ram.Length == RAM_SIZE && Holds(ram[..], h) && k0 < |h.blocks| && start == h.blocks[k0].off
      ensures at == NextFree(h, k0)
    {
      hide Holds;
      hide Header;
      hide NextFree;
      hide OffsetOf;
      at := start;
      ghost var k: nat := k0;
      ReadSearch(ram[..], h, k);
      while At16(at).used != 0 && at != MEM_SIZE
        invariant k <= |h.blocks| && at == OffsetOf(h, k) && 0 <= at <= MEM_SIZE
        invariant NextFree(h, k0) == NextFree(h, k)
        decreases MEM_SIZE - at
      {
        ReadSearch(ram[..], h, k);
        at := At16(at).next;
        k := k + 1;
        ReadSearch(ram[..], h, k);
      }
      ReadSearch(ram[..], h, k);
    }

    /** mem_malloc.  The memory handed out is that of the specification, and no allocated byte is
        written. */
    method Malloc(size: nat) returns (p: Pointer)
      requires Valid() && size < U16
      modifies this, ram
      ensures Valid()
      ensures (h, p) == Heap.Malloc(old(h), size)
      ensures p == Null ==> ram[..] == old(ram[..])
      ensures forall q, len :: Live(old(h), q, len) ==> Kept(old(ram[..]), ram[..], q, len)
    {
      hide Holds;
      hide Ok;
      hide Live;
      hide Take;
      hide Chosen;
      if size == 0 {
        return Null;
      }
      var n := Rounded(size);
      if n > MEM_SIZE {
        return Null;
      }
      var ptr := Search(n);
      hide Rounded;
      if ptr >= MEM_SIZE {
        return Null;
      }
      assert Fits(h, Chosen(h, n), n) by { ChosenFits(h, n); }
      Grab(ptr, n, Chosen(h, n));
      p := At(ptr + HEADER);
    }

    /** Takes n bytes off the front of the free block at ptr. */
    method Grab(ptr: int, n: nat, ghost i: nat)
      requires Valid() && i < |h.blocks| && Fits(h, i, n) && ptr == h.blocks[i].off
      modifies this, ram
      ensures Valid() && h == Take(old(h), i, n)
      ensures forall q, len :: Live(old(h), q, len) ==> Kept(old(ram[..]), ram[..], q, len)
    {
      hide Holds;
      hide Ok;
      hide Live;
      hide Kept;
      hide Take;
      hide TakeBytes;
      hide Header;
      hide NextFree;
      hide Tiles;
      ghost var s := ram[..];
      TakeImage(s, h, i, ptr, ptr + HEADER + n, n);
      TakeKeepsPayload(s, h, i, ptr, ptr + HEADER + n);
      TakeAt(ptr, ptr + HEADER + n);
      h := Take(h, i, n);
      if ptr == lfree {
        lfree := SeekFree(ptr, i);
      }
    }
  }
}
