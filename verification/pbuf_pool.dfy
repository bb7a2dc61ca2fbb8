/** Packet buffers as pbuf.c works on them: memory and pool changed in place, chains walked by their links. */
module PbufPool {
  import opened Pbufs
  import opened PbufChains

  /** The protocol layer decides how much room is left in front of the data. */
  datatype Layer = Transport | Ip | Link | Raw

  function Offset(l: Layer): nat {
    match l
    case Transport => 56
    case Ip => 36
    case Link => 16
    case Raw => 0
  }

  const U8 := 0x100

  /** All references of a chain are positive. */
  ghost predicate Counted(mem: Memory, ps: seq<int>) {
    forall i :: 0 <= i < |ps| ==> ps[i] in mem && mem[ps[i]].ref > 0
  }

  lemma ChainReferenced(w: World, p: int, ps: seq<int>)
    requires Inv(w) && p in w.live && IsList(w.mem, p, ps)
    ensures Counted(w.mem, ps)
  {
    forall i | 0 <= i < |ps| ensures ps[i] in w.mem && w.mem[ps[i]].ref > 0 {
      ChainLive(w, p, ps, i);
      Positive(w, ps[i]);
    }
  }

  lemma Positive(w: World, x: int)
    requires Inv(w) && x in w.live
    ensures x in w.mem && w.mem[x].ref > 0 && x != NULL
  {
    assert w.mem[x].ref == w.outside[x] + |Linkers(w.mem, w.live, x)| > 0;
  }

  /** The rest of a list after the release of its first buffer. */
  lemma AfterRelease(w: World, p: int, ps: seq<int>)
    requires IsList(w.mem, p, ps) && Counted(w.mem, ps) && ps != []
    ensures IsList(Release(w, p).mem, w.mem[p].next, ps[1..]) && Counted(Release(w, p).mem, ps[1..])
    ensures Count(Release(w, p).mem, ps[1..]) == Count(w.mem, ps[1..])
  {
    HeadNotInTail(w.mem, p, ps);
    forall i | 0 <= i < |ps[1..]|
      ensures ps[1..][i] in Release(w, p).mem && Release(w, p).mem[ps[1..][i]] == w.mem[ps[i + 1]]
    {
      ReleaseFrame(w, p, ps[i + 1]);
    }
    ListFrame(w.mem, Release(w, p).mem, w.mem[p].next, ps[1..]);
    RestCount(w, p, ps);
  }

  class PbufMemory {
    var mem: Memory
    var pool: int
    ghost var w: World

    /** The memory is that of the world w. */
    ghost predicate Same()
      reads this
    {
      w.mem == mem && w.pool == pool
    }

    ghost predicate Valid()
      reads this
    {
      Same() && Inv(w)
    }

    /** pbuf_free.  Its result is the number of buffers given back, in 8 bits. */
    method FreeChain(p0: int, ghost ps: seq<int>) returns (count: nat)
      requires Same() && IsList(mem, p0, ps) && Counted(mem, ps)
      modifies this
      ensures Same() && w == Pbufs.Free(old(w), ps) && count == Count(old(mem), ps) % U8
    {
      hide Release;
      hide DropRef;
      hide Low8;
      Low8Is(0);
      Low8Is(Count(mem, ps));
      var p := p0;
      ghost var rest := ps;
      ghost var done: nat := 0;
      count := 0;
      while p != NULL
        invariant Same() && IsList(mem, p, rest) && Counted(mem, rest)
        invariant Pbufs.Free(w, rest) == Pbufs.Free(old(w), ps)
        invariant done + Count(mem, rest) == Count(old(mem), ps) && count == Low8(done)
        decreases |rest|
      {
        var b := mem[p];
        if b.ref - 1 > 0 {
          Dropped(w, p);
          mem := mem[p := b.(ref := b.ref - 1)];
          w := DropRef(w, p);
          return;
        }
        Released(w, p);
        AfterRelease(w, p, rest);
        if b.kind.Pool? {
          mem := mem[p := Pooled(b, pool)];
          pool := p;
        } else {
          mem := mem - {p};
        }
        w := Release(w, p);
        count := (count + 1) % U8;
        Low8Next(done);
        done := done + 1;
        p := b.next;
        rest := rest[1..];
      }
    }

    /** pbuf_free of a buffer to which the caller holds a reference, or of nothing. */
    method Free(p: int, ghost ps: seq<int>) returns (count: nat)
      requires Valid() && IsList(mem, p, ps) && (p != NULL ==> p in w.outside)
      modifies this
      ensures Valid() && w == (if p == NULL then old(w) else Pbufs.Free(old(w), ps))
      ensures count == Count(old(mem), ps) % U8
    {
      hide Inv;
      hide CountsOk;
      hide Counted;
      if p == NULL {
        return 0;
      }
      OutsideLive(w, p);
      ChainReferenced(w, p, ps);
      FreeKeeps(w, ps);
      count := FreeChain(p, ps);
    }

    /** pbuf_ref. */
    method Ref(p: int)
      requires Valid() && (p != NULL ==> p in w.live)
      modifies this
      ensures Valid() && w == if p == NULL then old(w) else AddRef(old(w), p)
    {
      hide Inv;
      if p != NULL {
        Positive(w, p);
        AddRefKeeps(w, p);
        mem := mem[p := mem[p].(ref := mem[p].ref + 1)];
        w := AddRef(w, p);
      }
    }

    /** pbuf_cat: the second chain comes behind the first, and the caller's reference to it is taken over.
        The second chain must not lead back to the end of the first. */
    method Cat(h: int, t: int, ghost hs: seq<int>, ghost ts: seq<int>)
      requires Valid() && h in w.live && IsList(mem, h, hs) && hs != []
      requires t in w.outside && IsList(mem, t, ts) && hs[|hs| - 1] !in ts
      modifies this
      ensures Valid() && hs[|hs| - 1] in old(mem) && t in old(mem) && w == PbufChains.Cat(old(w), hs, t)
      ensures IsList(mem, h, hs + ts)
      ensures old(TotOk(mem, hs) && TotOk(mem, ts)) ==>
                && TotOk(mem, hs + ts) && SumLen(mem, hs + ts) == old(SumLen(mem, hs) + SumLen(mem, ts))
                && Contents(mem, hs + ts) == old(Contents(mem, hs)) + old(Contents(mem, ts))
                && forall x <- hs + ts :: TotLocal(mem, x)
    {
      hide Inv;
      hide TotLocal;
      hide IsList;
      hide AddTot;
      hide TotOk;
      hide Contents;
      hide SumLen;
      CatKeeps(w, h, hs, t, ts);
      OutsideLive(w, t);
      if TotOk(mem, hs) && TotOk(mem, ts) {
        CatChain(w, h, hs, t, ts);
      }
      ghost var mem0, n := mem, mem[t].totLen;
      AddTotNothing(mem, n);
      CatWalk(mem, h, hs, t, ts);
      var p := h;
      ghost var i: nat := 0;
      while mem[p].next != NULL
        invariant i < |hs| && p == hs[i] && mem == AddTot(mem0, hs[..i], n) && p in mem && t in mem
        invariant mem[p] == mem0[p] && mem[t] == mem0[t]
        invariant w == old(w) && pool == old(pool)
        decreases |hs| - i
      {
        WalkStep(mem0, h, hs, i, n, t, ts);
        mem := mem[p := mem[p].(totLen := (mem[p].totLen + mem[t].totLen) % Pbufs.U16)];
        p := mem[p].next;
        i := i + 1;
      }
      WalkStep(mem0, h, hs, i, n, t, ts);
      mem := mem[p := mem[p].(totLen := (mem[p].totLen + mem[t].totLen) % Pbufs.U16)];
      assert i + 1 == |hs| && mem == AddTot(mem0, hs, n) && p == hs[|hs| - 1];
      mem := mem[p := mem[p].(next := t)];
      w := PbufChains.Cat(w, hs, t);
      if TotOk(mem, hs + ts) {
        AllLocal(w, h, hs + ts);
      }
    }

    /** pbuf_chain: the caller keeps its reference to the second chain. */
    method Chain(h: int, t: int, ghost hs: seq<int>, ghost ts: seq<int>)
      requires Valid() && h in w.live && IsList(mem, h, hs) && hs != []
      requires t in w.outside && IsList(mem, t, ts) && hs[|hs| - 1] !in ts
      modifies this
      ensures Valid() && hs[|hs| - 1] in old(mem) && t in old(mem) && t in PbufChains.Cat(old(w), hs, t).mem
      ensures w == AddRef(PbufChains.Cat(old(w), hs, t), t)
      ensures w.outside == old(w.outside)
    {
      hide Inv;
      hide AddTot;
      OutsideLive(w, t);
      Cat(h, t, hs, ts);
      Ref(t);
    }

    /** pbuf_dechain: the first buffer is on its own, and the rest of the chain loses its link.  The result is
        meant to be the rest, if it is still there; that it is gone is told by the 8 bits of pbuf_free. */
    method Dechain(p: int, ghost ps: seq<int>) returns (r: int)
      requires Valid() && p in w.live && IsList(mem, p, ps)
      modifies this
      ensures Valid() && w == Unchain(old(w), ps) && w.outside == old(w.outside)
      ensures p in w.live && p in mem && IsList(mem, p, [p])
      ensures |ps| > 1 ==> mem[p].totLen == mem[p].len
      ensures r == if |ps| > 1 && Count(old(mem), ps[1..]) % U8 == 0 then ps[1] else NULL
      ensures RightRest(w, ps, r) <==>
              |ps| <= 1 || Count(old(mem), ps[1..]) == 0 || Count(old(mem), ps[1..]) % U8 != 0
      ensures |ps| > 1 && ps[1] in w.live ==> RestKept(old(mem), mem, ps)
      ensures forall x :: x in old(w).live && x !in ps ==> x in w.live && Untouched(old(mem), mem, x)
    {
      hide Inv;
      hide Counted;
      hide IsList;
      hide Pbufs.Free;
      hide Count;
      hide RestKept;
      FirstOnChain(w, p, ps);
      LiveInMemory(w);
      UnchainKeeps(w, p, ps);
      UnchainFrames(w, p, ps);
      var q := mem[p].next;
      if q == NULL {
        return NULL;
      }
      RestStays(w, p, ps);
      UnchainFacts(w, p, ps);
      Separated(w, p, ps);
      mem := mem[q := mem[q].(totLen := (mem[p].totLen - mem[p].len) % Pbufs.U16)];
      mem := mem[p := mem[p].(next := NULL)];
      mem := mem[p := mem[p].(totLen := mem[p].len)];
      w := Unlink(Retotal(w, p, q), p);
      var gone := Free(q, ps[1..]);
      r := if gone > 0 then NULL else q;
    }

    /** pbuf_realloc: shrinks the chain to newLen bytes; it does not grow. */
    method Realloc(p: int, newLen: nat, ghost ps: seq<int>)
      requires Valid() && p in w.live && IsList(mem, p, ps) && TotOk(mem, ps) && newLen < Pbufs.U16
      modifies this
      ensures Valid() && p in old(mem) && w.outside == old(w.outside)
      ensures newLen >= old(mem)[p].totLen ==> w == old(w)
      ensures newLen < old(mem)[p].totLen ==>
                exists k: nat :: k < |ps| && IsList(mem, p, ps[..k + 1]) && Kept(old(mem), mem, ps, k, newLen)
      ensures w == Resized(old(w), ps, newLen)
      ensures forall x :: x in old(w).live && x !in ps ==> x in w.live && Untouched(old(mem), mem, x)
    {
      hide Inv;
      hide Shrink;
      hide Counted;
      hide TotOk;
      hide SumLen;
      hide Trim;
      hide AddTot;
      hide IsList;
      hide CutBuf;
      Positive(w, p);
      LiveInMemory(w);
      HeadIs(mem, p, ps);
      if newLen >= mem[p].totLen {
        return;
      }
      ShortEnough(mem, p, ps, newLen);
      ghost var k := Stop(mem, ps, newLen);
      ghost var w0 := w;
      ShrinkChain(w, p, ps, newLen, k);
      ShrinkKeeps(w, p, ps, newLen, k);
      hide Stop;
      var q, left := StepOver(p, newLen, ps);
      mem := mem[q := CutBuf(mem[q], left)];
      assert mem == Trim(w0.mem, ps, newLen, k) by { TrimIs(w0.mem, p, ps, newLen, k); }
      TrimLinks(w0, ps, newLen, k);
      ListFrame(w0.mem, mem, p, ps);
      w := w0.(mem := Trim(w0.mem, ps, newLen, k));
      CutOff(p, q, ps, k);
      ShrinkIs(w0, w, q, ps, newLen, k);
      assert Kept(w0.mem, mem, ps, k, newLen);
      forall x | x in w0.live && x !in ps ensures x in w.live && Untouched(w0.mem, mem, x) {
        ShrinkFrame(w0, p, ps, newLen, k, x);
      }
    }

    /** Frees the chain behind q and ends the chain there. */
    method CutOff(p: int, q: int, ghost ps: seq<int>, ghost k: nat)
      requires Valid() && p in w.live && IsList(mem, p, ps) && k < |ps| && q == ps[k]
      modifies this
      ensures Same() && q in old(mem)
      ensures w == if k + 1 < |ps| then Pbufs.Free(Unlink(old(w), q), ps[k + 1..]) else Unlink(old(w), q)
    {
      hide Inv;
      hide Counted;
      hide IsList;
      LinkIgnored(w, p, ps, k);
      ghost var w1 := w;
      if mem[q].next != NULL {
        var count := FreeChain(mem[q].next, ps[k + 1..]);
      }
      mem := mem[q := mem[q].(next := NULL)];
      w := if k + 1 < |ps| then Pbufs.Free(Unlink(w1, q), ps[k + 1..]) else Unlink(w1, q);
    }

    /** The walk of pbuf_realloc to the new last buffer. */
    method StepOver(p: int, newLen: nat, ghost ps: seq<int>) returns (q: int, left: nat)
      requires IsList(mem, p, ps) && ps != [] && p in mem && newLen <= SumLen(mem, ps)
      modifies this`mem
      ensures var k := Stop(old(mem), ps, newLen);
              && k < |ps| && q == ps[k] && q in old(mem) && SumLen(old(mem), ps[..k]) <= newLen
              && left == newLen - SumLen(old(mem), ps[..k])
              && mem == AddTot(old(mem), ps[..k], Grow(old(mem), p, newLen)) && q in mem && mem[q] == old(mem)[q]
    {
      hide IsList;
      hide AddTot;
      ghost var mem0 := mem;
      var grow := (newLen - mem[p].totLen) % Pbufs.U16;
      AddTotNothing(mem, grow);
      StopFits(mem, p, ps, newLen);
      ghost var k := Stop(mem, ps, newLen);
      ghost var i: nat := 0;
      q, left := p, newLen;
      FirstIs(mem, p, ps);
      while left > mem[q].len
        invariant i <= k < |ps| && q == ps[i] && q in mem0 && q in mem && mem[q] == mem0[q]
        invariant mem == AddTot(mem0, ps[..i], grow)
        invariant SumLen(mem0, ps[..i]) + left == newLen && k == i + Stop(mem0, ps[i..], left)
        decreases |ps| - i
      {
        StopStep(mem0, p, ps, i, left, grow);
        left := left - mem[q].len;
        mem := mem[q := mem[q].(totLen := (mem[q].totLen + grow) % Pbufs.U16)];
        q := mem[q].next;
        i := i + 1;
      }
      assert ps[i..][0] == ps[i];
    }

    /** pbuf_pool_alloc, and the fields that pbuf_alloc sets. */
    method TakeFromPool(len: nat, totLen: nat, payload: nat) returns (p: int)
      requires Valid() && w.free != []
      modifies this
      ensures Valid() && p == old(w).free[0] && p in old(mem) && w == TakePool(old(w), len, totLen, payload)
      ensures p !in old(w).live && p == old(w).pool
    {
      hide Inv;
      TakePoolKeeps(w, len, totLen, payload);
      p := pool;
      pool := mem[p].next;
      mem := mem[p := mem[p].(ref := 1, len := len, totLen := totLen, next := NULL, payload := payload)];
      w := TakePool(w, len, totLen, payload);
    }

    /** pbuf_alloc from the pool: a chain of buffers with length bytes in all, or nothing when the pool has
        too few; then everything in use is as before, and the same buffers are free. */
    method AllocPool(l: Layer, length: nat) returns (p: int, ghost ps: seq<int>)
      requires Valid() && length < Pbufs.U16
      modifies this
      ensures Valid()
      ensures p == NULL <==> |old(w).free| < Needed(length, Offset(l))
      ensures p != NULL ==> Allocated(old(w), w, p, ps, length) && forall x <- ps :: TotLocal(mem, x)
      ensures p == NULL ==> Unchanged(old(w), w)
      ensures w == NewChain(old(w), Offset(l), length)
    {
      hide Inv;
      hide Growing;
      hide Extend;
      ps := [];
      NothingChanged(w);
      if pool == NULL {
        EmptyPool(w);
        return NULL, [];
      }
      FullPool(w);
      var first := Min(length, POOL_BUFSIZE - Offset(l));
      p := TakeFromPool(first, length, Offset(l));
      ps := [p];
      FirstGrown(old(w), w, length, first, Offset(l));
      var r := p;
      var left: nat := length - first;
      while left > 0
        invariant Valid() && ps != [] && r == ps[|ps| - 1] && Growing(old(w), w, p, ps, length, left)
        invariant Needed(length, Offset(l)) == |ps| + Rounds(left)
        invariant Extend(w, ps, left) == NewChain(old(w), Offset(l), length)
        decreases left
      {
        GrowingFacts(old(w), w, p, ps, length, left);
        if pool == NULL {
          EmptyPool(w);
          GivenBack(old(w), w, p, ps, length, left);
          ExtendStops(w, ps, left);
          var count := Free(p, ps);
          return NULL, [];
        }
        FullPool(w);
        var n := Min(left, POOL_BUFSIZE);
        PoolFacts(w);
        ghost var w1 := TakePool(w, n, left, 0);
        GrownMore(old(w), w, p, ps, length, left, n, w1, Pbufs.Link(w1, r, w.pool), left - n);
        ExtendStep(w, ps, left, n, w1, Pbufs.Link(w1, r, w.pool));
        var q := TakeFromPool(n, left, 0);
        mem := mem[r := mem[r].(next := q)];
        w := Pbufs.Link(w, r, q);
        ps := ps + [q];
        left := left - n;
        r := q;
      }
      GrowingFacts(old(w), w, p, ps, length, left);
      ExtendDone(w, ps);
      AllLocal(w, p, ps);
    }

    /** pbuf_alloc of a buffer in memory of its own; at is the address, or NULL when there is no memory. */
    method AllocSingle(kind: Kind, l: Layer, length: nat, at: int) returns (p: int)
      requires Valid() && !kind.Pool? && length < Pbufs.U16 && at !in mem
      modifies this
      ensures Valid() && p == if IsMade(kind, Offset(l), length, at) then at else NULL
      ensures w == if p == NULL then old(w) else Take(old(w), at, Single(kind, Offset(l), length))
    {
      hide Inv;
      hide Single;
      hide Request;
      if kind.Ram? && Request(Offset(l), length) == 0 {
        return NULL;
      }
      p := at;
      SingleFields(kind, Offset(l), length);
      if at != NULL {
        Apart(w, at);
        TakeNewKeeps(w, at, Single(kind, Offset(l), length));
        mem := mem[at := Single(kind, Offset(l), length)];
        w := Take(w, at, Single(kind, Offset(l), length));
      }
    }

    /** pbuf_init: the buffers of the pool at addresses 1 and up, linked in this order. */
    constructor ()
      ensures Valid() && w.live == {} && w.outside == multiset{} && |w.free| == POOL_SIZE && Clean(w)
    {
      hide From;
      hide IsList;
      var m: Memory := map[];
      var i := 0;
      while i < POOL_SIZE
        invariant 0 <= i <= POOL_SIZE
        invariant forall a :: a in m <==> 1 <= a <= i
        invariant forall a :: 1 <= a <= i ==> m[a] == Fresh(a + 1)
      {
        m := m[i + 1 := Fresh(i + 2)];
        i := i + 1;
      }
      m := m[POOL_SIZE := Fresh(NULL)];
      mem, pool := m, 1;
      ghost var start := World(m, 1, {}, From(1), multiset{});
      w := start;
      PoolInv(m, start, 1);
      hide Inv;
      hide Fresh;
    }
  }

  /** No references, full length, and the data at the start of the memory. */
  predicate Unused(b: Buf) {
    b.kind.Pool? && b.ref == 0 && b.len == POOL_BUFSIZE && b.totLen == POOL_BUFSIZE && b.payload == 0
  }

  ghost predicate Clean(w: World) {
    forall a :: a in w.free ==> a in w.mem && Unused(w.mem[a])
  }

  /** A buffer of the pool at the start. */
  function Fresh(next: int): Buf {
    Buf(0, POOL_BUFSIZE, POOL_BUFSIZE, next, Pool, seq(POOL_BUFSIZE, _ => 0), 0)
  }

  /** The addresses of the pool from a on. */
  function From(a: nat): (s: seq<int>)
    requires a <= POOL_SIZE + 1
    ensures |s| == POOL_SIZE + 1 - a
    ensures forall x :: x in s <==> a <= x <= POOL_SIZE
    decreases POOL_SIZE + 1 - a
  {
    if a > POOL_SIZE then [] else [a] + From(a + 1)
  }

  lemma {:induction false} PoolList(m: Memory, a: nat)
    requires 1 <= a <= POOL_SIZE && forall x :: a <= x <= POOL_SIZE ==>
             x in m && m[x].next == if x < POOL_SIZE then x + 1 else NULL
    ensures IsList(m, a, From(a))
    decreases POOL_SIZE - a
  {
    if a < POOL_SIZE {
      PoolList(m, a + 1);
    } else {
      assert From(a + 1) == [];
    }
  }

  lemma PoolInv(m: Memory, w: World, first: nat)
    requires forall a :: a in m <==> first <= a <= POOL_SIZE
    requires forall a :: a in m ==> m[a].kind.Pool? && m[a].next == if a < POOL_SIZE then a + 1 else NULL
    requires 1 <= first <= POOL_SIZE && w == World(m, first, {}, From(first), multiset{})
    ensures Inv(w)
  {
    hide From;
    hide IsList;
    hide Linkers;
    PoolList(m, first);
  }

  /** sizeof(struct pbuf): two pointers and four fields of 16 bits. */
  const STRUCT := 16

  /** The memory that pbuf_alloc asks mem_malloc for: aligned, and then cut to 16 bits. */
  function Request(offset: nat, length: nat): nat {
    (STRUCT + offset + length + (STRUCT + offset + length) % 2) % Pbufs.U16
  }

  /** A buffer that is not from the pool: in RAM with room for the headers, or one that refers to data
      elsewhere, which the caller sets. */
  function Single(kind: Kind, offset: nat, length: nat): Buf {
    if kind.Ram? then
      var n := Request(offset, length);
      Buf(1, length, length, NULL, kind, seq(if n < STRUCT then 0 else n - STRUCT, _ => 0), offset)
    else Buf(1, length, length, NULL, kind, [], 0)
  }

  /** Whether there is a new buffer: mem_malloc gives nothing for a request that is 0 in 16 bits. */
  predicate IsMade(kind: Kind, offset: nat, length: nat, at: int) {
    at != NULL && (kind.Ram? ==> Request(offset, length) != 0)
  }

  /** The data of a new buffer in RAM lies in its memory if and only if the request fits 16 bits when aligned. */
  lemma SingleHasData(offset: nat, length: nat, at: int)
    requires offset < POOL_BUFSIZE && length < Pbufs.U16
    ensures IsMade(Ram, offset, length, at) && HasData(map[at := Single(Ram, offset, length)], [at]) <==>
            at != NULL && STRUCT + offset + length < Pbufs.U16 - 1
  {
    var mem := map[at := Single(Ram, offset, length)];
    assert [at][0] == at;
    assert HasData(mem, [at]) <==> mem[at].payload + mem[at].len <= |mem[at].bytes|;
  }

  /** In this request for 65521 bytes the structure itself wraps to 2 bytes: the length says more than there is. */
  lemma RequestWraps()
    ensures Request(0, 65521) == 2 && Single(Ram, 0, 65521).len == 65521 && Single(Ram, 0, 65521).bytes == []
  {
  }

  lemma SingleFields(kind: Kind, offset: nat, length: nat)
    ensures var b := Single(kind, offset, length); b.next == NULL && b.ref == 1 && b.kind == kind
  {
  }

  lemma Apart(w: World, p: int)
    requires Inv(w) && p !in w.mem
    ensures p !in w.live
  {
  }

  function Min(a: nat, b: nat): nat { if a < b then a else b }

  /** The buffers needed for left bytes, and for a chain with room in front of the data. */
  function Rounds(left: nat): nat {
    (left + POOL_BUFSIZE - 1) / POOL_BUFSIZE
  }

  function Needed(length: nat, offset: nat): nat
    requires offset <= POOL_BUFSIZE
  {
    1 + Rounds(length - Min(length, POOL_BUFSIZE - offset))
  }

  /** In use are the buffers from before, as they were, and those of the new chain. */
  ghost predicate Adds(w0: World, w: World, ps: seq<int>) {
    && (forall x :: x in w.live <==> x in w0.live || x in ps)
    && w.mem.Keys == w0.mem.Keys
    && (forall x :: x in w0.live ==> x in w0.mem && x in w.mem && w.mem[x] == w0.mem[x])
  }

  /** Pool buffers with one reference each: the link to them, or the caller's. */
  ghost predicate Singles(mem: Memory, ps: seq<int>) {
    forall i :: 0 <= i < |ps| ==> ps[i] in mem && mem[ps[i]].ref == 1 && mem[ps[i]].kind.Pool?
  }

  /** The lengths of a chain to which left more bytes are to be added. */
  ghost predicate Lengths(mem: Memory, ps: seq<int>, length: nat, left: nat) {
    && left <= length && SumLen(mem, ps) == length - left
    && forall i :: 0 <= i < |ps| ==> LeftAt(mem, ps, left, i)
  }

  predicate LeftAt(mem: Memory, ps: seq<int>, left: nat, i: nat)
    requires i < |ps|
  {
    ps[i] in mem && mem[ps[i]].totLen == left + SumLen(mem, ps[i..])
  }

  /** A chain that is being built from the first buffers of the pool. */
  ghost predicate Growing(w0: World, w: World, p: int, ps: seq<int>, length: nat, left: nat) {
    && ps != [] && ps[0] == p && p != NULL && IsList(w.mem, p, ps)
    && w0.free == ps + w.free
    && w.outside == w0.outside + multiset{p}
    && Adds(w0, w, ps) && Singles(w.mem, ps) && Lengths(w.mem, ps, length, left)
  }

  /** A new chain, the first buffers of the pool, of the given length. */
  ghost predicate Allocated(w0: World, w: World, p: int, ps: seq<int>, length: nat) {
    && ps != [] && ps[0] == p && IsList(w.mem, p, ps)
    && w0.free == ps + w.free
    && w.outside == w0.outside + multiset{p}
    && Adds(w0, w, ps)
    && TotOk(w.mem, ps) && SumLen(w.mem, ps) == length
  }

  /** The same buffers are in use, as they were, and the same are free. */
  ghost predicate Unchanged(w0: World, w: World) {
    && w.live == w0.live && w.outside == w0.outside
    && (forall x :: x in w.live ==> x in w.mem && x in w0.mem && w.mem[x] == w0.mem[x])
    && (forall a :: a in w.free <==> a in w0.free)
  }

  /** The loop of pbuf_alloc: buffers are taken from the pool and linked until left is 0, or all is given back. */
  function Extend(w: World, ps: seq<int>, left: nat): World
    decreases left
  {
    if left == 0 || ps == [] then w
    else if w.free == [] || w.pool !in w.mem then Pbufs.Free(w, ps)
    else
      var n := Min(left, POOL_BUFSIZE);
      var w1 := TakePool(w, n, left, 0);
      if ps[|ps| - 1] !in w1.mem then w
      else Extend(Pbufs.Link(w1, ps[|ps| - 1], w.pool), ps + [w.pool], left - n)
  }

  /** pbuf_alloc from the pool. */
  function NewChain(w: World, payload: nat, length: nat): World
    requires payload < POOL_BUFSIZE
  {
    if w.free == [] || w.pool !in w.mem then w
    else
      var first := Min(length, POOL_BUFSIZE - payload);
      Extend(TakePool(w, first, length, payload), [w.pool], length - first)
  }

  lemma ExtendDone(w: World, ps: seq<int>)
    ensures Extend(w, ps, 0) == w
  {
  }

  lemma ExtendStops(w: World, ps: seq<int>, left: nat)
    requires left > 0 && ps != [] && w.free == []
    ensures Extend(w, ps, left) == Pbufs.Free(w, ps)
  {
    hide Pbufs.Free;
  }

  lemma ExtendStep(w: World, ps: seq<int>, left: nat, n: nat, w1: World, w2: World)
    requires left > 0 && ps != [] && w.free != [] && w.pool in w.mem && n == Min(left, POOL_BUFSIZE)
    requires w1 == TakePool(w, n, left, 0) && ps[|ps| - 1] in w1.mem && w2 == Pbufs.Link(w1, ps[|ps| - 1], w.pool)
    ensures Extend(w, ps, left) == Extend(w2, ps + [w.pool], left - n)
  {
    hide TakePool;
    hide Pbufs.Link;
  }

  /** Growing a chain keeps the invariant; of the references held outside there is one more, to the chain, if
      the pool has enough buffers, and none more if it has not. */
  lemma {:induction false} ExtendKeeps(w0: World, w: World, p: int, ps: seq<int>, length: nat, left: nat)
      returns (qs: seq<int>)
    requires Inv(w0) && Inv(w) && Growing(w0, w, p, ps, length, left) && length < Pbufs.U16
    ensures Inv(Extend(w, ps, left))
    ensures if |w.free| >= Rounds(left) then Allocated(w0, Extend(w, ps, left), p, qs, length)
            else Unchanged(w0, Extend(w, ps, left))
    ensures Extend(w, ps, left).outside == w0.outside + if |w.free| >= Rounds(left) then multiset{p} else multiset{}
    decreases left
  {
    hide Inv;
    hide TakePool;
    hide Pbufs.Link;
    hide Pbufs.Free;
    hide Extend;
    GrowingFacts(w0, w, p, ps, length, left);
    GrowingRefs(w0, w, p, ps, length, left);
    hide Growing;
    hide Allocated;
    hide Unchanged;
    qs := ps;
    if left == 0 {
      ExtendDone(w, ps);
    } else if w.free == [] {
      RoundsStep(left);
      ExtendStops(w, ps, left);
      GivenBack(w0, w, p, ps, length, left);
      FreeKeeps(w, ps);
      FreeOutside(w, ps);
    } else {
      PoolFacts(w);
      var n := Min(left, POOL_BUFSIZE);
      var w1 := TakePool(w, n, left, 0);
      LastLinked(w, ps, n, left);
      var w2 := Pbufs.Link(w1, ps[|ps| - 1], w.pool);
      ExtendStep(w, ps, left, n, w1, w2);
      GrownMore(w0, w, p, ps, length, left, n, w1, w2, left - n);
      GrownLess(w, w1, w2, ps[|ps| - 1], n, left);
      qs := ExtendKeeps(w0, w2, p, ps + [w.pool], length, left - n);
    }
  }

  lemma GrowingRefs(w0: World, w: World, p: int, ps: seq<int>, length: nat, left: nat)
    requires Growing(w0, w, p, ps, length, left)
    ensures w.outside == w0.outside + multiset{p} && ps[0] == p
  {
  }

  lemma LastLinked(w: World, ps: seq<int>, n: nat, left: nat)
    requires ps != [] && ps[|ps| - 1] in w.mem && w.free != [] && w.pool in w.mem
    ensures ps[|ps| - 1] in TakePool(w, n, left, 0).mem
  {
  }

  lemma GrownLess(w: World, w1: World, w2: World, r: int, n: nat, left: nat)
    requires w.free != [] && w.pool in w.mem && w1 == TakePool(w, n, left, 0) && r in w1.mem
             && w2 == Pbufs.Link(w1, r, w.pool)
    ensures |w2.free| == |w.free| - 1
  {
  }

  /** pbuf_alloc from the pool keeps the invariant, and the caller gets one reference exactly if there are enough
      buffers. */
  lemma NewChainKeeps(w: World, payload: nat, length: nat) returns (ps: seq<int>)
    requires Inv(w) && payload < POOL_BUFSIZE && length < Pbufs.U16
    ensures Inv(NewChain(w, payload, length))
    ensures if |w.free| >= Needed(length, payload) then Allocated(w, NewChain(w, payload, length), w.pool, ps, length)
            else Unchanged(w, NewChain(w, payload, length))
    ensures NewChain(w, payload, length).outside ==
            w.outside + if |w.free| >= Needed(length, payload) then multiset{w.pool} else multiset{}
  {
    hide Inv;
    hide Extend;
    hide Growing;
    hide TakePool;
    hide Allocated;
    ps := [];
    NothingChanged(w);
    hide Unchanged;
    if w.free != [] {
      PoolFacts(w);
      var first := Min(length, POOL_BUFSIZE - payload);
      var w1 := TakePool(w, first, length, payload);
      TakePoolKeeps(w, first, length, payload);
      TakenLess(w, first, length, payload);
      FirstGrown(w, w1, length, first, payload);
      ps := ExtendKeeps(w, w1, w.pool, [w.pool], length, length - first);
    }
  }

  lemma TakenLess(w: World, len: nat, totLen: nat, payload: nat)
    requires w.free != [] && w.pool in w.mem
    ensures |TakePool(w, len, totLen, payload).free| == |w.free| - 1
  {
  }

  /** On a chain with right total lengths, the field is what pbuf.h says it is. */
  lemma AllLocal(w: World, p: int, ps: seq<int>)
    requires Inv(w) && IsList(w.mem, p, ps) && TotOk(w.mem, ps)
    ensures forall x <- ps :: TotLocal(w.mem, x)
  {
    TotIsLocal(w.mem, p, ps);
  }

  lemma NothingChanged(w: World)
    requires Inv(w)
    ensures Unchanged(w, w)
  {
  }

  lemma EmptyPool(w: World)
    requires Inv(w) && w.pool == NULL
    ensures w.free == []
  {
  }

  lemma FullPool(w: World)
    requires Inv(w) && w.pool != NULL
    ensures w.free != []
  {
  }

  lemma OneBuffer(mem: Memory, p: int)
    requires p in mem && p != NULL && mem[p].next == NULL
    ensures IsList(mem, p, [p]) && SumLen(mem, [p]) == mem[p].len
  {
    assert [p][1..] == [];
  }

  /** The head of the chain. */
  lemma FirstGrown(w0: World, w: World, length: nat, first: nat, payload: nat)
    requires Inv(w0) && w0.free != [] && w0.pool in w0.mem && w == TakePool(w0, first, length, payload)
             && first <= length
    ensures Growing(w0, w, w0.pool, [w0.pool], length, length - first)
  {
    hide CountsOk;
    hide ChainsOk;
    var p := w0.pool;
    OneBuffer(w.mem, p);
    PoolFacts(w0);
    hide PoolOk;
    assert w0.free == [p] + w0.free[1..];
    assert [p][0..] == [p];
    hide IsList;
    hide SumLen;
    assert Adds(w0, w, [p]);
  }

  lemma PoolFacts(w: World)
    requires Inv(w) && w.free != []
    ensures w.pool in w.mem && w.pool == w.free[0] && w.pool != NULL && w.pool !in w.live && w.mem[w.pool].kind.Pool?
    ensures forall x :: x in w.live ==> x in w.mem
  {
    assert w.free[0] in w.free;
  }

  /** A chain that is complete, or the numbers when it is not. */
  lemma GrowingFacts(w0: World, w: World, p: int, ps: seq<int>, length: nat, left: nat)
    requires Growing(w0, w, p, ps, length, left) && length < Pbufs.U16
    ensures p != NULL && p in w.outside && IsList(w.mem, p, ps) && ps != [] && |w0.free| == |ps| + |w.free|
    ensures ps[|ps| - 1] in w.mem
    ensures left == 0 ==> Allocated(w0, w, p, ps, length)
  {
    hide Adds;
    hide Singles;
    hide Lengths;
    hide IsList;
    hide SumLen;
    hide TotOk;
    LastSingle(w.mem, ps);
    if left == 0 {
      LengthsDone(w.mem, ps, length);
    }
  }

  lemma LastSingle(mem: Memory, ps: seq<int>)
    requires Singles(mem, ps) && ps != []
    ensures ps[|ps| - 1] in mem
  {
  }

  lemma LengthsDone(mem: Memory, ps: seq<int>, length: nat)
    requires Lengths(mem, ps, length, 0) && length < Pbufs.U16
    ensures TotOk(mem, ps) && SumLen(mem, ps) == length
  {
    forall i | 0 <= i < |ps| ensures TotAt(mem, ps, i) {
      assert LeftAt(mem, ps, 0, i);
      SuffixShorter(mem, ps, i);
    }
  }

  lemma SuffixShorter(mem: Memory, ps: seq<int>, i: nat)
    requires i <= |ps|
    ensures SumLen(mem, ps[i..]) <= SumLen(mem, ps)
  {
    assert ps == ps[..i] + ps[i..];
    SumLenConcat(mem, ps[..i], ps[i..]);
  }

  /** Freeing the chain again when the pool is empty. */
  lemma GivenBack(w0: World, w: World, p: int, ps: seq<int>, length: nat, left: nat)
    requires Inv(w0) && Inv(w) && Growing(w0, w, p, ps, length, left) && w.free == []
    ensures Unchanged(w0, Pbufs.Free(w, ps))
  {
    hide Inv;
    hide Lengths;
    hide IsList;
    assert p in w.outside;
    var w' := Pbufs.Free(w, ps);
    FreeKeeps(w, ps);
    FreeOutside(w, ps);
    AllFreed(w, ps);
    FreeKeys(w, ps);
    FreeSet(w');
    FreeSet(w0);
    hide Singles;
    hide Pbufs.Free;
    forall x ensures (x in w'.live <==> x in w0.live)
      && (x in w'.live ==> x in w'.mem && x in w0.mem && w'.mem[x] == w0.mem[x])
    {
      BackAt(w0, w, ps, x);
    }
    forall a ensures a in w'.free <==> a in w0.free {
      assert a in w'.mem.Keys <==> a in w0.mem.Keys;
    }
  }

  /** What freeing the whole chain leaves of one buffer. */
  lemma BackAt(w0: World, w: World, ps: seq<int>, x: int)
    requires Inv(w0) && Inv(w) && ps != [] && ps[0] in w.outside && IsList(w.mem, ps[0], ps)
    requires Adds(w0, w, ps) && w0.free == ps + w.free && Count(w.mem, ps) == |ps|
    ensures x in Pbufs.Free(w, ps).live <==> x in w0.live
    ensures x in w0.live ==> x in Pbufs.Free(w, ps).mem && x in w0.mem && Pbufs.Free(w, ps).mem[x] == w0.mem[x]
  {
    FreeExactly(w, ps, x);
    assert ps[..|ps|] == ps;
    hide Pbufs.Free;
    if x in ps {
      assert x in w0.free;
      FreeSet(w0);
    }
    hide Inv;
  }

  /** The free buffers are those not in use. */
  lemma FreeSet(w: World)
    requires Inv(w)
    ensures forall a :: a in w.free <==> a in w.mem && a !in w.live
  {
  }

  lemma AllFreed(w: World, ps: seq<int>)
    requires Singles(w.mem, ps)
    ensures Count(w.mem, ps) == |ps| && ps[..|ps|] == ps
  {
  }

  lemma {:induction false} FreeKeys(w: World, ps: seq<int>)
    requires IsList(w.mem, if ps == [] then NULL else ps[0], ps) && Singles(w.mem, ps)
    ensures Pbufs.Free(w, ps).mem.Keys == w.mem.Keys
    decreases |ps|
  {
    hide Singles;
    hide IsList;
    hide Release;
    if ps != [] {
      SinglesRest(w, ps);
      FreeKeys(Release(w, ps[0]), ps[1..]);
    }
  }

  /** The first of the buffers goes back to the pool, and the rest stay as they were. */
  lemma SinglesRest(w: World, ps: seq<int>)
    requires ps != [] && IsList(w.mem, ps[0], ps) && Singles(w.mem, ps)
    ensures ps[0] in w.mem && w.mem[ps[0]].ref == 1
    ensures Release(w, ps[0]).mem.Keys == w.mem.Keys
    ensures IsList(Release(w, ps[0]).mem, if ps[1..] == [] then NULL else ps[1..][0], ps[1..])
    ensures Singles(Release(w, ps[0]).mem, ps[1..])
  {
    var w1 := Release(w, ps[0]);
    Released(w, ps[0]);
    HeadNotInTail(w.mem, ps[0], ps);
    forall i | 0 <= i < |ps[1..]| ensures ps[1..][i] in w1.mem && w1.mem[ps[1..][i]] == w.mem[ps[i + 1]] {
      ReleaseFrame(w, ps[0], ps[i + 1]);
    }
    hide Release;
    ListFrame(w.mem, w1.mem, w.mem[ps[0]].next, ps[1..]);
  }

  lemma RoundsStep(left: nat)
    requires left > 0
    ensures Rounds(left) == 1 + Rounds(left - Min(left, POOL_BUFSIZE))
  {
  }

  /** One more buffer at the end of the chain. */
  lemma GrownMore(w0: World, w: World, p: int, ps: seq<int>, length: nat, left: nat, n: nat, w1: World, w2: World,
      rest: nat)
    requires left > 0 && n == Min(left, POOL_BUFSIZE) && rest == left - n
    requires w.free != [] && w.pool in w.mem && w1 == TakePool(w, n, left, 0)
    requires ps != [] && ps[|ps| - 1] in w1.mem && w2 == Pbufs.Link(w1, ps[|ps| - 1], w.pool)
    requires Inv(w0) && Inv(w) && Growing(w0, w, p, ps, length, left)
    ensures Inv(w2) && Growing(w0, w2, p, ps + [w.pool], length, rest)
    ensures Rounds(left) == 1 + Rounds(rest)
  {
    hide Inv;
    hide Adds;
    hide Singles;
    hide Lengths;
    hide SumLen;
    RoundsStep(left);
    PoolFacts(w);
    TakePoolKeeps(w, n, left, 0);
    var q, r := w.pool, ps[|ps| - 1];
    GrowingLive(w0, w, ps, q);
    FreeApart(w0, r);
    FreeApart(w0, q);
    OneBuffer(w1.mem, q);
    ListFrame(w.mem, w1.mem, p, ps);
    LinkKeeps(w1, p, ps, q, [q]);
    ListJoin(w1.mem, p, ps, q, [q]);
    hide IsList;
    GrownAdds(w0, w, w2, ps, q, r);
    GrownSingles(w.mem, w2.mem, ps, q, r);
    GrownSums(w.mem, w2.mem, ps, q, r, n, left, length);
    GrownFree(w0.free, ps, w.free);
  }

  lemma FreeApart(w: World, x: int)
    requires Inv(w) && x in w.free
    ensures x !in w.live
  {
  }

  lemma GrownFree(free0: seq<int>, ps: seq<int>, free: seq<int>)
    requires free0 == ps + free && free != []
    ensures free0 == (ps + [free[0]]) + free[1..]
  {
  }

  lemma GrowingLive(w0: World, w: World, ps: seq<int>, q: int)
    requires Adds(w0, w, ps) && Singles(w.mem, ps) && q !in w.live
    ensures forall i :: 0 <= i < |ps| ==> ps[i] in w.live && ps[i] in w.mem && ps[i] != q
  {
    forall i | 0 <= i < |ps| ensures ps[i] in w.live {
      var x := ps[i];
      assert x in w.live <==> x in w0.live || x in ps;
    }
  }

  /** The new memory: q set up, and linked to from r. */
  predicate Linked(mem: Memory, mem': Memory, q: int, r: int) {
    && q in mem && r in mem && q in mem' && r in mem' && q != r
    && mem'.Keys == mem.Keys
    && mem'[q] == mem[q].(ref := 1, len := mem'[q].len, totLen := mem'[q].totLen, next := NULL, payload := 0)
    && mem'[r] == mem[r].(next := q)
    && forall x :: x in mem && x != q && x != r ==> x in mem' && mem'[x] == mem[x]
  }

  lemma GrownAdds(w0: World, w: World, w2: World, ps: seq<int>, q: int, r: int)
    requires Adds(w0, w, ps) && Linked(w.mem, w2.mem, q, r) && w2.live == w.live + {q} && r in ps && r !in w0.live
             && q !in w0.live
    ensures Adds(w0, w2, ps + [q])
  {
  }

  lemma GrownSingles(mem: Memory, mem': Memory, ps: seq<int>, q: int, r: int)
    requires Singles(mem, ps) && Linked(mem, mem', q, r) && mem[q].kind.Pool?
    requires forall i :: 0 <= i < |ps| ==> ps[i] != q
    ensures Singles(mem', ps + [q])
  {
  }

  /** The lengths when a buffer of n bytes is added. */
  lemma GrownSums(mem: Memory, mem': Memory, ps: seq<int>, q: int, r: int, n: nat, left: nat, length: nat)
    requires Lengths(mem, ps, length, left) && n <= left && Linked(mem, mem', q, r) && mem'[q].len == n
             && mem'[q].totLen == left
    requires forall i :: 0 <= i < |ps| ==> ps[i] != q
    ensures Lengths(mem', ps + [q], length, left - n)
  {
    forall i | 0 <= i < |ps|
      ensures ps[i] in mem && ps[i] in mem' && mem'[ps[i]].len == mem[ps[i]].len
              && mem'[ps[i]].totLen == mem[ps[i]].totLen
    {
      assert LeftAt(mem, ps, left, i);
      LinkedAt(mem, mem', q, r, ps[i]);
    }
    hide Linked;
    var rest := left - n;
    assert [q][1..] == [];
    SumLenConcat(mem', ps, [q]);
    SumLenFrame(mem, mem', ps);
    forall i | 0 <= i < |ps + [q]| ensures LeftAt(mem', ps + [q], rest, i) {
      if i < |ps| {
        assert LeftAt(mem, ps, left, i);
        assert (ps + [q])[i..] == ps[i..] + [q];
        SumLenConcat(mem', ps[i..], [q]);
        SumLenFrame(mem, mem', ps[i..]);
      } else {
        assert (ps + [q])[i..] == [q];
      }
    }
  }

  lemma LinkedAt(mem: Memory, mem': Memory, q: int, r: int, x: int)
    requires Linked(mem, mem', q, r) && x in mem && x != q
    ensures x in mem' && mem'[x] == mem[x].(next := mem'[x].next)
  {
  }

  /** The chain that pbuf_realloc leaves: its length, its total lengths, and its contents. */
  ghost predicate Kept(mem: Memory, mem': Memory, ps: seq<int>, k: nat, newLen: nat)
    requires k < |ps|
  {
    && TotOk(mem', ps[..k + 1]) && SumLen(mem', ps[..k + 1]) == newLen
    && (HasData(mem, ps) ==>
        newLen <= |Contents(mem, ps)| && Contents(mem', ps[..k + 1]) == Contents(mem, ps)[..newLen])
  }

  lemma HeadIs(mem: Memory, p: int, ps: seq<int>)
    requires IsList(mem, p, ps) && p != NULL
    ensures ps != [] && ps[0] == p
  {
  }

  lemma ShrinkIs(w: World, w': World, q: int, ps: seq<int>, newLen: nat, k: nat)
    requires k < |ps| && ps[0] in w.mem && ps[k] in w.mem && SumLen(w.mem, ps[..k]) <= newLen && q == ps[k]
    requires q in Trim(w.mem, ps, newLen, k)
    requires var cut := Unlink(w.(mem := Trim(w.mem, ps, newLen, k)), q);
             w' == if k + 1 < |ps| then Pbufs.Free(cut, ps[k + 1..]) else cut
    ensures w' == Shrink(w, ps, newLen, k)
  {
    hide Trim;
    hide SumLen;
    hide Unlink;
    hide Pbufs.Free;
  }

  /** pbuf_realloc. */
  function Resized(w: World, ps: seq<int>, newLen: nat): World {
    if ps == [] || ps[0] !in w.mem || newLen >= w.mem[ps[0]].totLen then w
    else
      var k := Stop(w.mem, ps, newLen);
      if k < |ps| && ps[k] in w.mem && SumLen(w.mem, ps[..k]) <= newLen then Shrink(w, ps, newLen, k) else w
  }

  lemma ResizedKeeps(w: World, p: int, ps: seq<int>, newLen: nat)
    requires Inv(w) && p in w.live && IsList(w.mem, p, ps)
    ensures Inv(Resized(w, ps, newLen)) && Resized(w, ps, newLen).outside == w.outside
  {
    hide Inv;
    hide Shrink;
    hide SumLen;
    hide Stop;
    hide IsList;
    var k := Stop(w.mem, ps, newLen);
    if k < |ps| && ps[0] in w.mem && ps[k] in w.mem && SumLen(w.mem, ps[..k]) <= newLen {
      ShrinkKeeps(w, p, ps, newLen, k);
    }
  }

  /** Buffers off the chain are left alone. */
  lemma ShrinkFrame(w: World, p: int, ps: seq<int>, newLen: nat, k: nat, x: int)
    requires Inv(w) && p in w.live && IsList(w.mem, p, ps) && k < |ps| && x in w.live && x !in ps
    requires ps[0] in w.mem && ps[k] in w.mem && SumLen(w.mem, ps[..k]) <= newLen
    ensures x in Shrink(w, ps, newLen, k).live && Untouched(w.mem, Shrink(w, ps, newLen, k).mem, x)
  {
    hide Inv;
    hide Trim;
    hide SumLen;
    Positive(w, x);
    var w1 := w.(mem := Trim(w.mem, ps, newLen, k));
    TrimLinks(w, ps, newLen, k);
    ListFrame(w.mem, w1.mem, p, ps);
    hide IsList;
    CutChain(w1, p, ps, k);
    TrimAt(w.mem, ps, newLen, k, x);
    if k + 1 < |ps| {
      FreeExactly(Unlink(w1, ps[k]), ps[k + 1..], x);
    }
  }

  lemma FirstIs(mem: Memory, p: int, ps: seq<int>)
    requires IsList(mem, p, ps) && ps != []
    ensures ps[0] == p && ps[0..] == ps && SumLen(mem, ps[..0]) == 0 && ps[..0] == []
  {
  }

  /** A new length below the total length is below the length of the chain. */
  lemma ShortEnough(mem: Memory, p: int, ps: seq<int>, newLen: nat)
    requires IsList(mem, p, ps) && p in mem && p != NULL && TotOk(mem, ps) && newLen < mem[p].totLen
    ensures ps != [] && newLen <= SumLen(mem, ps)
  {
    assert TotAt(mem, ps, 0);
    assert ps[0..] == ps;
  }

  lemma StopStep(mem: Memory, p: int, ps: seq<int>, i: nat, left: nat, n: nat)
    requires IsList(mem, p, ps) && i < |ps| && ps[i] in mem && left > mem[ps[i]].len
    requires i + Stop(mem, ps[i..], left) < |ps|
    ensures i + 1 < |ps| && mem[ps[i]].next == ps[i + 1] && ps[i + 1] in mem
    ensures Stop(mem, ps[i..], left) == 1 + Stop(mem, ps[i + 1..], left - mem[ps[i]].len)
    ensures SumLen(mem, ps[..i + 1]) == SumLen(mem, ps[..i]) + mem[ps[i]].len
    ensures AddTot(mem, ps[..i + 1], n) ==
            AddTot(mem, ps[..i], n)[ps[i] := mem[ps[i]].(totLen := (mem[ps[i]].totLen + n) % Pbufs.U16)]
    ensures AddTot(mem, ps[..i + 1], n)[ps[i + 1]] == mem[ps[i + 1]]
  {
    assert ps[i..][1..] == ps[i + 1..];
    assert Stop(mem, ps[i..], left) == 1 + Stop(mem, ps[i + 1..], left - mem[ps[i]].len);
    NextOnList(mem, p, ps, i);
    ListFrom(mem, p, ps, i + 1);
    AddTotStep(mem, p, ps, i, n);
    AddTotStep(mem, p, ps, i + 1, n);
    hide AddTot;
    hide Stop;
    hide IsList;
    assert ps[..i + 1] == ps[..i] + [ps[i]];
    SumLenConcat(mem, ps[..i], [ps[i]]);
    assert [ps[i]][1..] == [];
  }

  lemma TrimIs(mem: Memory, p: int, ps: seq<int>, newLen: nat, k: nat)
    requires IsList(mem, p, ps) && k < |ps| && p in mem && ps[k] in mem && SumLen(mem, ps[..k]) <= newLen
    ensures Trim(mem, ps, newLen, k) ==
            AddTot(mem, ps[..k], Grow(mem, p, newLen))[ps[k] := CutBuf(mem[ps[k]], newLen - SumLen(mem, ps[..k]))]
  {
  }

  /** pbuf_free does not look at the link of a buffer in front of the chain it frees. */
  lemma {:induction false} FreeIgnores(w: World, v: World, r: int, ts: seq<int>)
    requires r in w.mem && r !in ts && v.mem == w.mem[r := w.mem[r].(next := NULL)] && v.pool == w.pool
    ensures r in Pbufs.Free(w, ts).mem
    ensures Pbufs.Free(v, ts).mem == Pbufs.Free(w, ts).mem[r := Pbufs.Free(w, ts).mem[r].(next := NULL)]
    ensures Pbufs.Free(v, ts).pool == Pbufs.Free(w, ts).pool
    decreases |ts|
  {
    if ts != [] && ts[0] in w.mem && w.mem[ts[0]].ref == 1 {
      Released(w, ts[0]);
      Released(v, ts[0]);
      hide Release;
      assert Release(v, ts[0]).mem == Release(w, ts[0]).mem[r := Release(w, ts[0]).mem[r].(next := NULL)];
      FreeIgnores(Release(w, ts[0]), Release(v, ts[0]), r, ts[1..]);
    }
  }

  /** Freeing the tail and then cutting the link is cutting the link and then freeing the tail. */
  lemma LinkIgnored(w: World, p: int, ps: seq<int>, k: nat)
    requires Inv(w) && p in w.live && IsList(w.mem, p, ps) && k < |ps|
    ensures ps[k] in w.mem && (w.mem[ps[k]].next == if k + 1 < |ps| then ps[k + 1] else NULL)
    ensures k + 1 < |ps| ==>
              && IsList(w.mem, ps[k + 1], ps[k + 1..]) && Counted(w.mem, ps[k + 1..]) && ps[k + 1] != NULL
              && ps[k] in Pbufs.Free(w, ps[k + 1..]).mem
              && Pbufs.Free(Unlink(w, ps[k]), ps[k + 1..]).mem ==
                   Pbufs.Free(w, ps[k + 1..]).mem[ps[k] := Pbufs.Free(w, ps[k + 1..]).mem[ps[k]].(next := NULL)]
              && Pbufs.Free(Unlink(w, ps[k]), ps[k + 1..]).pool == Pbufs.Free(w, ps[k + 1..]).pool
  {
    hide Inv;
    ChainReferenced(w, p, ps);
    NextOnList(w.mem, p, ps, k);
    if k + 1 < |ps| {
      ListFrom(w.mem, p, ps, k + 1);
      ListFrom(w.mem, p, ps, k);
      HeadNotInTail(w.mem, ps[k], ps[k..]);
      forall j | k < j < |ps| ensures ps[j] != ps[k] {
        assert ps[k..][j - k] == ps[j];
      }
      FreeIgnores(w, Unlink(w, ps[k]), ps[k], ps[k + 1..]);
    }
  }

  /** The total lengths that pbuf_dechain writes. */
  function Retotal(w: World, p: int, q: int): World
    requires p in w.mem && q in w.mem
  {
    w.(mem := w.mem[q := w.mem[q].(totLen := (w.mem[p].totLen - w.mem[p].len) % Pbufs.U16)]
                   [p := w.mem[p].(totLen := w.mem[p].len)])
  }

  lemma RetotalKeeps(w: World, p: int, q: int)
    requires Inv(w) && p in w.live && p in w.mem && q in w.mem && p != q
    ensures Inv(Retotal(w, p, q))
    ensures forall x :: x in w.mem ==> x in Retotal(w, p, q).mem && Retotal(w, p, q).mem[x].next == w.mem[x].next
    ensures p in Retotal(w, p, q).mem && q in Retotal(w, p, q).mem && Retotal(w, p, q).mem[q].ref == w.mem[q].ref
    ensures Retotal(w, p, q).live == w.live && Retotal(w, p, q).outside == w.outside && Retotal(w, p, q).pool == w.pool
  {
    hide Linkers;
    hide Ends;
    SameLinks(w, Retotal(w, p, q));
  }

  /** The buffer is as it was. */
  predicate Untouched(mem: Memory, mem': Memory, x: int) {
    x in mem && x in mem' && mem'[x] == mem[x]
  }

  /** pbuf_dechain, for the first buffer of a chain. */
  function Unchain(w: World, ps: seq<int>): World {
    if |ps| > 1 && ps[0] in w.mem && ps[1] in w.mem
    then Pbufs.Free(Unlink(Retotal(w, ps[0], ps[1]), ps[0]), ps[1..])
    else w
  }

  /** The chain just before its tail is freed. */
  lemma Separated(w: World, p: int, ps: seq<int>)
    requires Inv(w) && p in w.live && IsList(w.mem, p, ps) && |ps| > 1
    ensures ps[0] == p && p in w.mem && ps[1] in w.mem
    ensures var cut := Unlink(Retotal(w, p, ps[1]), p);
            && Inv(cut) && cut.live == w.live && ps[1] in cut.outside && IsList(cut.mem, ps[1], ps[1..])
            && p in cut.mem && IsList(cut.mem, p, ps[..1])
            && cut.outside == w.outside + multiset{ps[1]}
  {
    hide Inv;
    Positive(w, p);
    LiveOnChain(w, p, ps, 1);
    RetotalKeeps(w, p, ps[1]);
    ListFrame(w.mem, Retotal(w, p, ps[1]).mem, p, ps);
    hide IsList;
    CutChain(Retotal(w, p, ps[1]), p, ps, 0);
  }

  /** What that leaves of a buffer other than the first. */
  lemma SeparatedAt(w: World, p: int, q: int, x: int)
    requires p in w.mem && q in w.mem && x in w.mem && x != p
    ensures x in Unlink(Retotal(w, p, q), p).mem
    ensures Unlink(Retotal(w, p, q), p).mem[x] ==
            if x == q then w.mem[x].(totLen := (w.mem[p].totLen - w.mem[p].len) % Pbufs.U16) else w.mem[x]
  {
  }

  /** pbuf_dechain keeps the invariant and all references held outside. */
  lemma UnchainKeeps(w: World, p: int, ps: seq<int>)
    requires Inv(w) && p in w.live && IsList(w.mem, p, ps)
    ensures Inv(Unchain(w, ps)) && Unchain(w, ps).outside == w.outside
  {
    hide Inv;
    hide Pbufs.Free;
    if |ps| > 1 {
      Separated(w, p, ps);
      hide Unlink;
      var cut := Unlink(Retotal(w, p, ps[1]), p);
      FreeKeeps(cut, ps[1..]);
      FreeOutside(cut, ps[1..]);
    }
  }

  /** Buffers off the chain are left alone. */
  lemma UnchainFrame(w: World, p: int, ps: seq<int>, x: int)
    requires Inv(w) && p in w.live && IsList(w.mem, p, ps) && x in w.live && x !in ps
    ensures x in Unchain(w, ps).live && Untouched(w.mem, Unchain(w, ps).mem, x)
  {
    hide Inv;
    Positive(w, x);
    if |ps| > 1 {
      Separated(w, p, ps);
      SeparatedAt(w, p, ps[1], x);
      hide Retotal;
      hide Unlink;
      FreeExactly(Unlink(Retotal(w, p, ps[1]), p), ps[1..], x);
    }
  }

  /** A rest that stays has its contents, and right total lengths if the chain had them. */
  lemma UnchainRest(w: World, p: int, ps: seq<int>)
    requires Inv(w) && p in w.live && IsList(w.mem, p, ps) && |ps| > 1 && ps[1] in w.mem && w.mem[ps[1]].ref > 1
    ensures Contents(Unchain(w, ps).mem, ps[1..]) == Contents(w.mem, ps[1..])
    ensures TotOk(w.mem, ps) ==> TotOk(Unchain(w, ps).mem, ps[1..])
  {
    hide Inv;
    hide TotOk;
    var w', ts := Unchain(w, ps), ps[1..];
    forall i | 0 <= i < |ts| ensures ts[i] in w.mem && ts[i] in w'.mem && OnlyRef(w, w'.mem[ts[i]], ps, i + 1) {
      UnchainAt(w, p, ps, i + 1);
    }
    hide IsList;
    hide Unchain;
    ContentsFrame(w.mem, w'.mem, ts);
    if TotOk(w.mem, ps) {
      RestTot(w, w'.mem, ps);
    }
  }

  /** The rest of a chain is as it was: its contents, and its total lengths if they were right. */
  ghost predicate RestKept(mem: Memory, mem': Memory, ps: seq<int>)
    requires |ps| > 1
  {
    && IsList(mem', ps[1], ps[1..])
    && Contents(mem', ps[1..]) == Contents(mem, ps[1..])
    && (TotOk(mem, ps) ==> TotOk(mem', ps[1..]))
  }

  /** What pbuf_dechain leaves: the first buffer on its own, and the rest, if it stays. */
  lemma UnchainFacts(w: World, p: int, ps: seq<int>)
    requires Inv(w) && p in w.live && IsList(w.mem, p, ps) && |ps| > 1
    ensures var w' := Unchain(w, ps);
            && p in w'.live && p in w'.mem && IsList(w'.mem, p, [p]) && w'.mem[p].totLen == w'.mem[p].len
            && (ps[1] in w'.live ==> RestKept(w.mem, w'.mem, ps))
  {
    hide Inv;
    hide Count;
    hide TotOk;
    hide Contents;
    Separated(w, p, ps);
    RestStays(w, p, ps);
    HeadNotInTail(w.mem, p, ps);
    var cut := Unlink(Retotal(w, p, ps[1]), p);
    DechainTail(cut, p, ps);
    assert cut.mem[p].totLen == cut.mem[p].len;
    if w.mem[ps[1]].ref > 1 {
      DechainRest(cut, ps[1..]);
      UnchainRest(w, p, ps);
    }
    hide IsList;
    hide Pbufs.Free;
  }

  /** Nothing off the chain changes. */
  lemma UnchainFrames(w: World, p: int, ps: seq<int>)
    requires Inv(w) && p in w.live && IsList(w.mem, p, ps)
    ensures forall x :: x in w.live && x !in ps ==> x in Unchain(w, ps).live && Untouched(w.mem, Unchain(w, ps).mem, x)
  {
    forall x | x in w.live && x !in ps ensures x in Unchain(w, ps).live && Untouched(w.mem, Unchain(w, ps).mem, x) {
      UnchainFrame(w, p, ps, x);
    }
  }

  /** The first buffer of a chain and its link. */
  lemma FirstOnChain(w: World, p: int, ps: seq<int>)
    requires Inv(w) && p in w.live && IsList(w.mem, p, ps)
    ensures ps != [] && ps[0] == p && p in w.mem && w.mem[p].next == if |ps| > 1 then ps[1] else NULL
    ensures |ps| > 1 ==> ps[1] in w.mem && ps[1] != NULL && ps[1] != p
    ensures |ps| == 1 ==> ps == [p] && IsList(w.mem, p, [p])
  {
    hide Inv;
    Positive(w, p);
    NextOnList(w.mem, p, ps, 0);
    if |ps| > 1 {
      LiveOnChain(w, p, ps, 1);
    }
  }

  /** The buffer at place i of a chain but for its count and, if it is the second one, its total length. */
  predicate OnlyRef(w: World, b: Buf, ps: seq<int>, i: nat)
    requires 0 < i < |ps| && ps[0] in w.mem && ps[i] in w.mem
  {
    var tot := if i == 1 then (w.mem[ps[0]].totLen - w.mem[ps[0]].len) % Pbufs.U16 else w.mem[ps[i]].totLen;
    b == w.mem[ps[i]].(ref := b.ref, totLen := tot)
  }

  lemma UnchainAt(w: World, p: int, ps: seq<int>, i: nat)
    requires Inv(w) && p in w.live && IsList(w.mem, p, ps) && 0 < i < |ps| && ps[1] in w.mem && w.mem[ps[1]].ref > 1
    ensures ps[0] in w.mem && ps[i] in w.mem && ps[i] in Unchain(w, ps).mem
    ensures OnlyRef(w, Unchain(w, ps).mem[ps[i]], ps, i)
  {
    hide Inv;
    Separated(w, p, ps);
    LiveOnChain(w, p, ps, i);
    if i > 1 {
      ListDistinct(w.mem, p, ps, 1, i);
    }
    ListDistinct(w.mem, p, ps, 0, 1);
    hide IsList;
    SeparatedAt(w, p, ps[1], ps[1]);
    SeparatedAt(w, p, ps[1], ps[i]);
    hide Retotal;
    hide Unlink;
    var cut := Unlink(Retotal(w, p, ps[1]), p);
    assert Pbufs.Free(cut, ps[1..]) == DropRef(cut, ps[1]);
  }

  lemma RestTot(w: World, mem': Memory, ps: seq<int>)
    requires |ps| > 1 && TotOk(w.mem, ps)
    requires ps[0] in w.mem
    requires forall i :: 0 <= i < |ps[1..]| ==>
             ps[1..][i] in w.mem && ps[1..][i] in mem' && OnlyRef(w, mem'[ps[1..][i]], ps, i + 1)
    ensures TotOk(mem', ps[1..])
  {
    var ts := ps[1..];
    forall i | 0 <= i < |ts| ensures TotAt(mem', ts, i) {
      assert TotAt(w.mem, ps, i + 1) && TotAt(w.mem, ps, 0);
      assert ts[i..] == ps[i + 1..] && ps[0..] == ps;
      SumLenFrame(w.mem, mem', ts[i..]);
      assert SumLen(w.mem, ps) == w.mem[ps[0]].len + SumLen(w.mem, ts);
      hide SumLen;
      TakeAway(w.mem[ps[0]].len, SumLen(w.mem, ts));
    }
  }

  lemma TakeAway(a: nat, b: nat)
    ensures ((a + b) % Pbufs.U16 - a) % Pbufs.U16 == b % Pbufs.U16
  {
    var k := (a + b) / Pbufs.U16;
    assert (a + b) % Pbufs.U16 - a == b + Pbufs.U16 * (-k);
    ModShift(b, -k);
  }

  lemma LiveOnChain(w: World, p: int, ps: seq<int>, i: nat)
    requires Inv(w) && p in w.live && IsList(w.mem, p, ps) && i < |ps|
    ensures ps[i] in w.live && ps[i] in w.mem && ps[i] != NULL && (i > 0 ==> ps[i] != p)
  {
    ChainLive(w, p, ps, i);
    if i > 0 {
      ListDistinct(w.mem, p, ps, 0, i);
    }
  }

  /** Freeing the tail leaves the buffer it was cut off from. */
  lemma DechainTail(w: World, p: int, ps: seq<int>)
    requires Inv(w) && |ps| > 1 && p in w.live && IsList(w.mem, p, ps[..1]) && ps[0] == p
    requires ps[1] in w.outside && IsList(w.mem, ps[1], ps[1..]) && p !in ps[1..]
    ensures p in Pbufs.Free(w, ps[1..]).live && p in Pbufs.Free(w, ps[1..]).mem && p in w.mem
    ensures Pbufs.Free(w, ps[1..]).mem[p] == w.mem[p] && IsList(Pbufs.Free(w, ps[1..]).mem, p, [p])
  {
    assert ps[..1] == [p];
    FreeTail(w, ps[1..], p, [p]);
    assert [p][0] == p;
  }

  /** The result of pbuf_dechain as documented: the rest of the chain, or NULL if it is gone. */
  ghost predicate RightRest(w: World, ps: seq<int>, r: int) {
    r == if |ps| > 1 && ps[1] in w.live then ps[1] else NULL
  }

  lemma {:induction false} CountRefs(mem: Memory, mem': Memory, ps: seq<int>)
    requires forall i :: 0 <= i < |ps| ==> ps[i] in mem && ps[i] in mem' && mem'[ps[i]].ref == mem[ps[i]].ref
    ensures Count(mem', ps) == Count(mem, ps)
    decreases |ps|
  {
    if ps != [] {
      CountRefs(mem, mem', ps[1..]);
    }
  }

  /** The rest of the chain stays exactly if its first buffer has a reference besides the link. */
  lemma RestStays(w: World, p: int, ps: seq<int>)
    requires Inv(w) && p in w.live && IsList(w.mem, p, ps) && |ps| > 1
    ensures ps[1] in w.mem && p in w.mem && ps[1] != NULL && w.mem[ps[1]].ref > 0
    ensures Count(Unlink(Retotal(w, p, ps[1]), p).mem, ps[1..]) == Count(w.mem, ps[1..])
    ensures ps[1] in Unchain(w, ps).live <==> Count(w.mem, ps[1..]) == 0
    ensures Count(w.mem, ps[1..]) == 0 <==> w.mem[ps[1]].ref > 1
  {
    hide Inv;
    Separated(w, p, ps);
    LiveOnChain(w, p, ps, 1);
    Positive(w, ps[1]);
    var cut, ts := Unlink(Retotal(w, p, ps[1]), p), ps[1..];
    forall i | 0 <= i < |ts| ensures ts[i] in w.mem && ts[i] in cut.mem && cut.mem[ts[i]].ref == w.mem[ts[i]].ref {
      LiveOnChain(w, p, ps, i + 1);
      SeparatedAt(w, p, ps[1], ts[i]);
    }
    hide IsList;
    CountRefs(w.mem, cut.mem, ts);
    HeadNotInTailAt(cut, ts);
  }

  lemma HeadNotInTailAt(w: World, ts: seq<int>)
    requires Inv(w) && ts != [] && ts[0] in w.outside && IsList(w.mem, ts[0], ts)
    ensures ts[0] in Pbufs.Free(w, ts).live <==> Count(w.mem, ts) == 0
  {
    FreeExactly(w, ts, ts[0]);
    OutsideLive(w, ts[0]);
    hide Pbufs.Free;
  }

  /** What is left of a chain after pbuf_free: nothing changed but a count, if its first buffer stays. */
  lemma DechainRest(w: World, ts: seq<int>)
    requires Inv(w) && ts != [] && ts[0] in w.outside && IsList(w.mem, ts[0], ts)
    ensures ts[0] in w.mem && (Count(w.mem, ts) > 0 <==> w.mem[ts[0]].ref == 1)
    ensures Count(w.mem, ts) == 0 ==> ts[0] in Pbufs.Free(w, ts).live && IsList(Pbufs.Free(w, ts).mem, ts[0], ts)
  {
    OutsideLive(w, ts[0]);
    Positive(w, ts[0]);
    if w.mem[ts[0]].ref > 1 {
      ListFrame(w.mem, DropRef(w, ts[0]).mem, ts[0], ts);
    }
  }

  lemma OutsideLive(w: World, p: int)
    requires Inv(w) && p in w.outside
    ensures p in w.live && p in w.mem && p != NULL
  {
  }

  lemma CatWalk(mem: Memory, h: int, hs: seq<int>, t: int, ts: seq<int>)
    requires IsList(mem, h, hs) && hs != []
    ensures hs[0] == h && h in mem && hs[..0] == []
  {
  }

  /** One step of the walk along the first chain. */
  lemma WalkStep(mem: Memory, h: int, hs: seq<int>, i: nat, n: nat, t: int, ts: seq<int>)
    requires IsList(mem, h, hs) && i < |hs| && IsList(mem, t, ts) && hs[|hs| - 1] !in ts && t in mem && t != NULL
    ensures hs[i] in mem && mem[hs[i]].next == (if i + 1 < |hs| then hs[i + 1] else NULL) && hs[i] != NULL
    ensures AddTot(mem, hs[..i], n)[hs[i]] == mem[hs[i]] && AddTot(mem, hs[..i], n)[t] == mem[t] && hs[i] != t
    ensures AddTot(mem, hs[..i + 1], n) ==
            AddTot(mem, hs[..i], n)[hs[i] := mem[hs[i]].(totLen := (mem[hs[i]].totLen + n) % Pbufs.U16)]
    ensures i + 1 < |hs| ==>
            hs[i + 1] != NULL && hs[i + 1] in mem && AddTot(mem, hs[..i + 1], n)[hs[i + 1]] == mem[hs[i + 1]]
    ensures i + 1 == |hs| ==> hs[..i + 1] == hs
  {
    ListFrom(mem, h, hs, i);
    NextOnList(mem, h, hs, i);
    AddTotStep(mem, h, hs, i, n);
    CatDisjoint(mem, h, hs, t, ts);
    assert ts != [] && ts[0] == t;
    AddTotAt(mem, hs[..i], n, t);
    if i + 1 < |hs| {
      NextStep(mem, h, hs, i, n);
    }
  }

  lemma NextStep(mem: Memory, h: int, hs: seq<int>, i: nat, n: nat)
    requires IsList(mem, h, hs) && i + 1 < |hs|
    ensures hs[i + 1] != NULL && hs[i + 1] in mem && AddTot(mem, hs[..i + 1], n)[hs[i + 1]] == mem[hs[i + 1]]
  {
    ListFrom(mem, h, hs, i + 1);
    AddTotStep(mem, h, hs, i + 1, n);
  }

  function Low8(n: nat): nat { n % U8 }

  lemma Low8Is(n: nat)
    ensures Low8(n) == n % U8
  {
  }

  lemma Low8Next(n: nat)
    ensures (Low8(n) + 1) % U8 == Low8(n + 1)
  {
  }

  lemma Dropped(w: World, p: int)
    requires p in w.mem && w.mem[p].ref > 0
    ensures DropRef(w, p).mem == w.mem[p := w.mem[p].(ref := w.mem[p].ref - 1)] && DropRef(w, p).pool == w.pool
  {
  }

  lemma Released(w: World, p: int)
    requires p in w.mem
    ensures Release(w, p).mem == if w.mem[p].kind.Pool? then w.mem[p := Pooled(w.mem[p], w.pool)] else w.mem - {p}
    ensures Release(w, p).pool == if w.mem[p].kind.Pool? then p else w.pool
  {
  }
}
