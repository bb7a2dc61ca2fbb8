/** Free buffers of the pool are as pbuf_init made them, in every state of every run. */
module PbufFree {
  import opened Pbufs
  import opened PbufChains
  import opened PbufPool
  import opened PbufRuns

  /** A freed buffer of the pool is as good as new. */
  lemma {:induction false} FreeClean(w: World, ps: seq<int>)
    requires Clean(w)
    ensures Clean(Pbufs.Free(w, ps))
    decreases |ps|
  {
    if ps != [] && ps[0] in w.mem && w.mem[ps[0]].ref == 1 {
      ReleaseClean(w, ps[0]);
      FreeClean(Release(w, ps[0]), ps[1..]);
    }
  }

  lemma ReleaseClean(w: World, p: int)
    requires Clean(w) && p in w.mem
    ensures Clean(Release(w, p))
  {
  }

  /** The free buffers are as they were. */
  lemma SameFree(w: World, w': World)
    requires Clean(w) && w'.free == w.free
    requires forall a :: a in w.free && a in w.mem ==> a in w'.mem && w'.mem[a] == w.mem[a]
    ensures Clean(w')
  {
  }

  lemma ChainNotFree(w: World, p: int, ps: seq<int>)
    requires Inv(w) && p in w.live && IsList(w.mem, p, ps)
    ensures forall a :: a in w.free ==> a !in ps
  {
    forall a | a in w.free ensures a !in ps {
      if a in ps {
        var i :| 0 <= i < |ps| && ps[i] == a;
        LiveOnChain(w, p, ps, i);
        FreeApart(w, a);
      }
    }
  }

  lemma FreeInMemory(w: World)
    requires Inv(w)
    ensures forall a :: a in w.free ==> a in w.mem
  {
  }

  lemma CatClean(w: World, h: int, t: int)
    requires Inv(w) && Clean(w) && Joinable(w, h, t)
    ensures Clean(PbufChains.Cat(w, Path(w.mem, h), t))
  {
    PathOf(w, h);
    var hs := Path(w.mem, h);
    ChainNotFree(w, h, hs);
    hide Inv;
    hide Clean;
    hide Path;
    var w' := PbufChains.Cat(w, hs, t);
    forall a | a in w.free && a in w.mem ensures a in w'.mem && w'.mem[a] == w.mem[a] {
      CatUntouched(w, hs, t, a);
    }
    SameFree(w, w');
  }

  lemma CatUntouched(w: World, hs: seq<int>, t: int, x: int)
    requires hs != [] && hs[|hs| - 1] in w.mem && t in w.mem && x in w.mem && x !in hs
    ensures x in PbufChains.Cat(w, hs, t).mem && PbufChains.Cat(w, hs, t).mem[x] == w.mem[x]
    ensures PbufChains.Cat(w, hs, t).free == w.free
  {
  }

  lemma SeparateClean(w: World, p: int)
    requires Inv(w) && Clean(w) && p in w.live
    ensures Clean(Unchain(w, Path(w.mem, p)))
  {
    PathOf(w, p);
    var ps := Path(w.mem, p);
    ChainNotFree(w, p, ps);
    hide Inv;
    hide Path;
    hide IsList;
    if |ps| > 1 && ps[0] in w.mem && ps[1] in w.mem {
      var cut := Unlink(Retotal(w, ps[0], ps[1]), ps[0]);
      assert ps[0] in ps && ps[1] in ps;
      SameFree(w, cut);
      FreeClean(cut, ps[1..]);
      hide Pbufs.Free;
    }
  }

  lemma ResizeClean(w: World, p: int, newLen: nat)
    requires Inv(w) && Clean(w) && p in w.live
    ensures Clean(Resized(w, Path(w.mem, p), newLen))
  {
    PathOf(w, p);
    var ps := Path(w.mem, p);
    ChainNotFree(w, p, ps);
    hide Inv;
    hide Path;
    hide IsList;
    hide SumLen;
    hide Stop;
    hide Pbufs.Free;
    hide Clean;
    var k := Stop(w.mem, ps, newLen);
    if k < |ps| && ps[0] in w.mem && ps[k] in w.mem && SumLen(w.mem, ps[..k]) <= newLen {
      var w1 := w.(mem := Trim(w.mem, ps, newLen, k));
      forall a | a in w.free && a in w.mem ensures a in w1.mem && w1.mem[a] == w.mem[a] && a != ps[k] {
        NotOn(ps, k, a);
        TrimAt(w.mem, ps, newLen, k, a);
      }
      TrimKeys(w.mem, ps, newLen, k);
      hide Trim;
      SameFree(w, Unlink(w1, ps[k]));
      FreeClean(Unlink(w1, ps[k]), ps[k + 1..]);
    }
  }

  lemma NotOn(ps: seq<int>, k: nat, a: int)
    requires k < |ps| && a !in ps
    ensures a != ps[k] && a !in ps[..k]
  {
  }

  /** Taking the first buffer of the pool and linking it to one in use leaves the other free ones alone. */
  lemma TakeClean(w: World, n: nat, left: nat, payload: nat, w1: World)
    requires Inv(w) && Clean(w) && w.free != [] && w.pool in w.mem && w1 == TakePool(w, n, left, payload)
    ensures Clean(w1) && w1.free == w.free[1..]
  {
    HeadNotInTail(w.mem, w.pool, w.free);
    hide CountsOk;
    hide ChainsOk;
    forall a | a in w.free[1..] ensures a in w1.mem && Unused(w1.mem[a]) {
      assert a in w.free && a != w.pool;
    }
  }

  lemma LinkClean(w1: World, r: int, t: int, w2: World)
    requires Clean(w1) && r in w1.mem && r !in w1.free && w2 == Pbufs.Link(w1, r, t)
    ensures Clean(w2)
  {
  }

  lemma {:induction false} ExtendClean(w0: World, w: World, p: int, ps: seq<int>, length: nat, left: nat)
    requires Inv(w0) && Inv(w) && Growing(w0, w, p, ps, length, left) && length < Pbufs.U16 && Clean(w)
    ensures Clean(Extend(w, ps, left))
    decreases left
  {
    hide Inv;
    hide Clean;
    hide TakePool;
    hide Pbufs.Link;
    hide Pbufs.Free;
    hide Extend;
    GrowingFacts(w0, w, p, ps, length, left);
    LastInUse(w0, w, p, ps, length, left);
    hide Growing;
    if left == 0 {
      ExtendDone(w, ps);
    } else if w.free == [] {
      ExtendStops(w, ps, left);
      FreeClean(w, ps);
    } else {
      PoolFacts(w);
      var n, r := Min(left, POOL_BUFSIZE), ps[|ps| - 1];
      var w1 := TakePool(w, n, left, 0);
      LastLinked(w, ps, n, left);
      var w2 := Pbufs.Link(w1, r, w.pool);
      ExtendStep(w, ps, left, n, w1, w2);
      GrownMore(w0, w, p, ps, length, left, n, w1, w2, left - n);
      TakeClean(w, n, left, 0, w1);
      NotBehind(w, r);
      LinkClean(w1, r, w.pool, w2);
      ExtendClean(w0, w2, p, ps + [w.pool], length, left - n);
    }
  }

  lemma LastInUse(w0: World, w: World, p: int, ps: seq<int>, length: nat, left: nat)
    requires Growing(w0, w, p, ps, length, left)
    ensures ps != [] && ps[|ps| - 1] in w.live
  {
    var x := ps[|ps| - 1];
    assert x in w.live <==> x in w0.live || x in ps;
  }

  lemma NotBehind(w: World, r: int)
    requires Inv(w) && r in w.live && w.free != []
    ensures r !in w.free[1..]
  {
  }

  lemma NewClean(w: World, payload: nat, length: nat)
    requires Inv(w) && Clean(w) && payload < POOL_BUFSIZE && length < Pbufs.U16
    ensures Clean(NewChain(w, payload, length))
  {
    hide Inv;
    hide Clean;
    hide Extend;
    hide Growing;
    hide TakePool;
    if w.free != [] {
      PoolFacts(w);
      var first := Min(length, POOL_BUFSIZE - payload);
      var w1 := TakePool(w, first, length, payload);
      TakePoolKeeps(w, first, length, payload);
      FirstGrown(w, w1, length, first, payload);
      TakeClean(w, first, length, payload, w1);
      ExtendClean(w, w1, w.pool, [w.pool], length, length - first);
    }
  }

  lemma AddRefClean(w: World, p: int)
    requires Inv(w) && Clean(w) && p in w.live && p in w.mem
    ensures Clean(AddRef(w, p))
  {
  }

  lemma TakeNewClean(w: World, p: int, b: Buf)
    requires Inv(w) && Clean(w) && p !in w.mem
    ensures Clean(Take(w, p, b))
  {
  }

  lemma NextClean(w: World, op: Op)
    requires Inv(w) && Clean(w) && Allowed(w, op)
    ensures Clean(Next(w, op))
  {
    hide Inv;
    hide Clean;
    hide Path;
    hide PbufChains.Cat;
    hide Pbufs.Free;
    hide Unchain;
    hide Resized;
    hide NewChain;
    hide Single;
    match op
    case AddReference(p) => AddRefClean(w, p);
    case FreeBuffer(p) => FreeClean(w, Path(w.mem, p));
    case Concatenate(h, t) => CatClean(w, h, t);
    case ChainUp(h, t) =>
      CatClean(w, h, t);
      JoinKeeps(w, h, t);
      AddRefClean(PbufChains.Cat(w, Path(w.mem, h), t), t);
    case Separate(p) => SeparateClean(w, p);
    case Resize(p, newLen) => ResizeClean(w, p, newLen);
    case FromPool(layer, length) => NewClean(w, Offset(layer), length);
    case FromMemory(kind, layer, length, at) => TakeNewClean(w, at, Single(kind, Offset(layer), length));
  }

  /** Over every run of calls the free buffers of the pool have no references and their full length. */
  lemma {:induction false} RunClean(w: World, ops: seq<Op>)
    requires Inv(w) && Clean(w) && AllAllowed(w, ops)
    ensures Clean(Run(w, ops))
    decreases |ops|
  {
    hide Inv;
    hide Clean;
    hide Next;
    hide Allowed;
    if ops != [] {
      NextKeeps(w, ops[0]);
      NextClean(w, ops[0]);
      RunClean(Next(w, ops[0]), ops[1..]);
    }
  }

  // ---------------------------------------------------------------------------------------------
  // The buffers of a new chain

  /** The first buffer leaves room for headers, and all are filled but perhaps the last. */
  ghost predicate Filled(mem: Memory, ps: seq<int>, payload: nat) {
    forall i :: 0 <= i < |ps| ==>
      && ps[i] in mem && mem[ps[i]].ref == 1 && mem[ps[i]].payload == (if i == 0 then payload else 0)
      && mem[ps[i]].payload + mem[ps[i]].len <= POOL_BUFSIZE
      && (i < |ps| - 1 ==> mem[ps[i]].payload + mem[ps[i]].len == POOL_BUFSIZE)
  }

  /** All are filled as long as more is to come. */
  ghost predicate Full(mem: Memory, ps: seq<int>, payload: nat, left: nat) {
    Filled(mem, ps, payload)
    && (left > 0 && ps != [] ==> mem[ps[|ps| - 1]].payload + mem[ps[|ps| - 1]].len == POOL_BUFSIZE)
  }

  lemma FilledMore(mem: Memory, mem': Memory, ps: seq<int>, q: int, r: int, payload: nat, left: nat, n: nat)
    requires Full(mem, ps, payload, left) && left > 0 && n == Min(left, POOL_BUFSIZE) && ps != []
    requires Linked(mem, mem', q, r) && mem'[q].len == n
    requires forall i :: 0 <= i < |ps| ==> ps[i] != q
    ensures Full(mem', ps + [q], payload, left - n)
  {
    forall i | 0 <= i < |ps| ensures ps[i] in mem' && mem'[ps[i]] == mem[ps[i]].(next := mem'[ps[i]].next) {
      LinkedAt(mem, mem', q, r, ps[i]);
    }
    hide Linked;
  }

  lemma LinkedMemory(w: World, n: nat, left: nat, r: int, w1: World, w2: World)
    requires w.free != [] && w.pool in w.mem && r in w.mem && r != w.pool
    requires w1 == TakePool(w, n, left, 0) && r in w1.mem && w2 == Pbufs.Link(w1, r, w.pool)
    ensures Linked(w.mem, w2.mem, w.pool, r) && w2.mem[w.pool].len == n
  {
  }

  /** A chain from the pool has exactly the buffers that are needed: the first with its data behind the room for
      the headers, the others from their start, each filled but the last. */
  lemma {:induction false} ExtendFills(w0: World, w: World, p: int, ps: seq<int>, length: nat, left: nat, payload: nat)
      returns (qs: seq<int>)
    requires Inv(w0) && Inv(w) && Growing(w0, w, p, ps, length, left) && length < Pbufs.U16
    requires Full(w.mem, ps, payload, left) && |w.free| >= Rounds(left)
    ensures Allocated(w0, Extend(w, ps, left), p, qs, length)
    ensures Filled(Extend(w, ps, left).mem, qs, payload) && |qs| == |ps| + Rounds(left)
    decreases left
  {
    hide Inv;
    hide TakePool;
    hide Pbufs.Link;
    hide Pbufs.Free;
    hide Extend;
    hide Allocated;
    GrowingFacts(w0, w, p, ps, length, left);
    LastInUse(w0, w, p, ps, length, left);
    qs := ps;
    if left == 0 {
      ExtendDone(w, ps);
    } else {
      RoundsStep(left);
      PoolFacts(w);
      var n, r := Min(left, POOL_BUFSIZE), ps[|ps| - 1];
      var w1 := TakePool(w, n, left, 0);
      LastLinked(w, ps, n, left);
      var w2 := Pbufs.Link(w1, r, w.pool);
      NotPool(w0, w, p, ps, length, left);
      hide Growing;
      ExtendStep(w, ps, left, n, w1, w2);
      GrownMore(w0, w, p, ps, length, left, n, w1, w2, left - n);
      GrownLess(w, w1, w2, r, n, left);
      LinkedMemory(w, n, left, r, w1, w2);
      FilledMore(w.mem, w2.mem, ps, w.pool, r, payload, left, n);
      hide Full;
      hide Filled;
      qs := ExtendFills(w0, w2, p, ps + [w.pool], length, left - n, payload);
    }
  }

  lemma NotPool(w0: World, w: World, p: int, ps: seq<int>, length: nat, left: nat)
    requires Inv(w) && Growing(w0, w, p, ps, length, left) && w.free != []
    ensures forall i :: 0 <= i < |ps| ==> ps[i] != w.pool
  {
    PoolFacts(w);
    hide Inv;
    GrowingLive(w0, w, ps, w.pool);
  }

  lemma NewChainFills(w: World, payload: nat, length: nat) returns (ps: seq<int>)
    requires Inv(w) && payload < POOL_BUFSIZE && length < Pbufs.U16 && |w.free| >= Needed(length, payload)
    ensures Allocated(w, NewChain(w, payload, length), w.pool, ps, length)
    ensures Filled(NewChain(w, payload, length).mem, ps, payload) && |ps| == Needed(length, payload)
  {
    hide Inv;
    hide Extend;
    hide Growing;
    hide Allocated;
    PoolFacts(w);
    var first := Min(length, POOL_BUFSIZE - payload);
    var w1 := TakePool(w, first, length, payload);
    TakePoolKeeps(w, first, length, payload);
    TakenLess(w, first, length, payload);
    FirstGrown(w, w1, length, first, payload);
    assert Full(w1.mem, [w.pool], payload, length - first);
    hide TakePool;
    ps := ExtendFills(w, w1, w.pool, [w.pool], length, length - first, payload);
  }
}
