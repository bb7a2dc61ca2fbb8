/**
 * Runs of the calls on packet buffers: the counts stay the numbers of references, and whoever gives back every
 * reference has given back every buffer.
 */
module PbufRuns {
  import opened Pbufs
  import opened PbufChains
  import opened PbufPool

  /** The calls, as callers may make them. */
  datatype Op =
    | AddReference(p: int)
    | FreeBuffer(p: int)
    | Concatenate(h: int, t: int)
    | ChainUp(h: int, t: int)
    | Separate(p: int)
    | Resize(p: int, newLen: nat)
    | FromPool(layer: Layer, length: nat)
    | FromMemory(kind: Kind, layer: Layer, length: nat, at: int)

  /** The chain that starts at p. */
  ghost function Path(mem: Memory, p: int): (ps: seq<int>)
    ensures Ends(mem, p) ==> IsList(mem, p, ps)
  {
    if Ends(mem, p) then var ps :| IsList(mem, p, ps); ps else []
  }

  lemma PathOf(w: World, p: int)
    requires Inv(w) && p in w.live
    ensures IsList(w.mem, p, Path(w.mem, p)) && Path(w.mem, p) != [] && Path(w.mem, p)[0] == p && p in w.mem
            && p != NULL
  {
    Positive(w, p);
  }

  /** Two chains can be joined if the second does not lead back to the end of the first. */
  ghost predicate Joinable(w: World, h: int, t: int) {
    var hs := Path(w.mem, h);
    h in w.live && t in w.outside && hs != [] && hs[|hs| - 1] in w.mem && t in w.mem && hs[|hs| - 1] !in Path(w.mem, t)
  }

  ghost predicate Allowed(w: World, op: Op) {
    match op
    case AddReference(p) => p in w.live && p in w.mem
    case FreeBuffer(p) => p in w.outside
    case Concatenate(h, t) => Joinable(w, h, t)
    case ChainUp(h, t) => Joinable(w, h, t)
    case Separate(p) => p in w.live
    case Resize(p, newLen) => p in w.live && newLen < Pbufs.U16 && TotOk(w.mem, Path(w.mem, p))
    case FromPool(_, length) => length < Pbufs.U16
    case FromMemory(kind, _, length, at) => !kind.Pool? && length < Pbufs.U16 && at !in w.mem
  }

  /** One call. */
  ghost function Next(w: World, op: Op): World
    requires Allowed(w, op)
  {
    match op
    case AddReference(p) => AddRef(w, p)
    case FreeBuffer(p) => Pbufs.Free(w, Path(w.mem, p))
    case Concatenate(h, t) => PbufChains.Cat(w, Path(w.mem, h), t)
    case ChainUp(h, t) => ChainOnto(w, Path(w.mem, h), t)
    case Separate(p) => Unchain(w, Path(w.mem, p))
    case Resize(p, newLen) => Resized(w, Path(w.mem, p), newLen)
    case FromPool(layer, length) => NewChain(w, Offset(layer), length)
    case FromMemory(kind, layer, length, at) =>
      if IsMade(kind, Offset(layer), length, at) then Take(w, at, Single(kind, Offset(layer), length)) else w
  }

  /** pbuf_chain. */
  function ChainOnto(w: World, hs: seq<int>, t: int): World
    requires hs != [] && hs[|hs| - 1] in w.mem && t in w.mem
  {
    var joined := PbufChains.Cat(w, hs, t);
    AddRef(joined, t)
  }

  ghost predicate AllAllowed(w: World, ops: seq<Op>)
    decreases |ops|
  {
    ops == [] || (Allowed(w, ops[0]) && AllAllowed(Next(w, ops[0]), ops[1..]))
  }

  ghost function Run(w: World, ops: seq<Op>): World
    requires AllAllowed(w, ops)
    decreases |ops|
  {
    if ops == [] then w else Run(Next(w, ops[0]), ops[1..])
  }

  // ---------------------------------------------------------------------------------------------
  // The counts over a run

  lemma JoinKeeps(w: World, h: int, t: int)
    requires Inv(w) && Joinable(w, h, t)
    ensures Inv(PbufChains.Cat(w, Path(w.mem, h), t)) && t in PbufChains.Cat(w, Path(w.mem, h), t).mem
    ensures PbufChains.Cat(w, Path(w.mem, h), t).outside == w.outside - multiset{t}
    ensures t in PbufChains.Cat(w, Path(w.mem, h), t).live
  {
    hide Inv;
    hide Path;
    OutsideLive(w, t);
    PathOf(w, h);
    PathOf(w, t);
    CatKeeps(w, h, Path(w.mem, h), t, Path(w.mem, t));
    CatAt(w, Path(w.mem, h), t, t);
  }

  /** The references that callers hold after a call. */
  ghost function Held(w: World, op: Op): multiset<int> {
    match op
    case AddReference(p) => w.outside + multiset{p}
    case FreeBuffer(p) => w.outside - multiset{p}
    case Concatenate(_, t) => w.outside - multiset{t}
    case FromPool(layer, length) =>
      if |w.free| >= Needed(length, Offset(layer)) then w.outside + multiset{w.pool} else w.outside
    case FromMemory(kind, layer, length, at) =>
      if IsMade(kind, Offset(layer), length, at) then w.outside + multiset{at} else w.outside
    case _ => w.outside
  }

  /** Every call keeps the invariant: counts are numbers of references, chains end, and the pool is intact. */
  lemma NextKeeps(w: World, op: Op)
    requires Inv(w) && Allowed(w, op)
    ensures Inv(Next(w, op)) && Next(w, op).outside == Held(w, op)
  {
    hide Inv;
    hide Path;
    hide PbufChains.Cat;
    hide Pbufs.Free;
    hide Unchain;
    hide Resized;
    hide NewChain;
    match op
    case AddReference(p) => AddRefKeeps(w, p);
    case FreeBuffer(p) =>
      OutsideLive(w, p);
      PathOf(w, p);
      FreeKeeps(w, Path(w.mem, p));
      FreeOutside(w, Path(w.mem, p));
    case Concatenate(h, t) => JoinKeeps(w, h, t);
    case ChainUp(h, t) =>
      JoinKeeps(w, h, t);
      AddRefKeeps(PbufChains.Cat(w, Path(w.mem, h), t), t);
    case Separate(p) =>
      PathOf(w, p);
      UnchainKeeps(w, p, Path(w.mem, p));
    case Resize(p, newLen) =>
      PathOf(w, p);
      ResizedKeeps(w, p, Path(w.mem, p), newLen);
    case FromPool(layer, length) => var ps := NewChainKeeps(w, Offset(layer), length);
    case FromMemory(kind, layer, length, at) =>
      SingleFields(kind, Offset(layer), length);
      if at != NULL {
        Apart(w, at);
        TakeNewKeeps(w, at, Single(kind, Offset(layer), length));
      }
  }

  lemma {:induction false} RunKeeps(w: World, ops: seq<Op>)
    requires Inv(w) && AllAllowed(w, ops)
    ensures Inv(Run(w, ops))
    decreases |ops|
  {
    hide Inv;
    hide Next;
    hide Allowed;
    if ops != [] {
      NextKeeps(w, ops[0]);
      RunKeeps(Next(w, ops[0]), ops[1..]);
    }
  }

  // ---------------------------------------------------------------------------------------------
  // Nothing is lost

  /** Buffers of the pool are never lost: in use or free, they are there. */
  ghost predicate PoolStays(w: World, w': World) {
    forall a :: a in w.mem && w.mem[a].kind.Pool? ==> a in w'.mem && w'.mem[a].kind.Pool?
  }

  lemma {:induction false} FreeStays(w: World, ps: seq<int>)
    ensures PoolStays(w, Pbufs.Free(w, ps))
    decreases |ps|
  {
    if ps != [] && ps[0] in w.mem && w.mem[ps[0]].ref == 1 {
      FreeStays(Release(w, ps[0]), ps[1..]);
    }
  }

  lemma {:induction false} ExtendStays(w: World, ps: seq<int>, left: nat)
    ensures PoolStays(w, Extend(w, ps, left))
    decreases left
  {
    hide Pbufs.Free;
    if left > 0 && ps != [] {
      if w.free == [] || w.pool !in w.mem {
        FreeStays(w, ps);
      } else {
        var n := Min(left, POOL_BUFSIZE);
        var w1 := TakePool(w, n, left, 0);
        if ps[|ps| - 1] in w1.mem {
          ExtendStays(Pbufs.Link(w1, ps[|ps| - 1], w.pool), ps + [w.pool], left - n);
        }
      }
    }
  }

  lemma ResizedStays(w: World, ps: seq<int>, newLen: nat)
    ensures PoolStays(w, Resized(w, ps, newLen))
  {
    hide Pbufs.Free;
    hide SumLen;
    hide Stop;
    var k := Stop(w.mem, ps, newLen);
    if k < |ps| && ps[0] in w.mem && ps[k] in w.mem && SumLen(w.mem, ps[..k]) <= newLen {
      var mem := Trim(w.mem, ps, newLen, k);
      forall a | a in w.mem ensures a in mem && mem[a].kind == w.mem[a].kind {
        TrimAt(w.mem, ps, newLen, k, a);
      }
      hide Trim;
      FreeStays(Unlink(w.(mem := mem), ps[k]), ps[k + 1..]);
    }
  }

  lemma NextStays(w: World, op: Op)
    requires Inv(w) && Allowed(w, op)
    ensures PoolStays(w, Next(w, op))
  {
    hide Inv;
    hide Path;
    hide Pbufs.Free;
    hide Extend;
    match op
    case FreeBuffer(p) => FreeStays(w, Path(w.mem, p));
    case Separate(p) =>
      var ps := Path(w.mem, p);
      if |ps| > 1 && ps[0] in w.mem && ps[1] in w.mem {
        FreeStays(Unlink(Retotal(w, ps[0], ps[1]), ps[0]), ps[1..]);
      }
    case Resize(p, newLen) => ResizedStays(w, Path(w.mem, p), newLen);
    case FromPool(layer, length) => NewChainStays(w, Offset(layer), length);
    case _ =>
  }

  lemma NewChainStays(w: World, payload: nat, length: nat)
    requires payload < POOL_BUFSIZE
    ensures PoolStays(w, NewChain(w, payload, length))
  {
    hide Extend;
    if w.free != [] && w.pool in w.mem {
      var first := Min(length, POOL_BUFSIZE - payload);
      ExtendStays(TakePool(w, first, length, payload), [w.pool], length - first);
    }
  }

  lemma {:induction false} RunStays(w: World, ops: seq<Op>)
    requires Inv(w) && AllAllowed(w, ops)
    ensures PoolStays(w, Run(w, ops))
    decreases |ops|
  {
    hide Inv;
    hide Next;
    hide Allowed;
    if ops != [] {
      NextKeeps(w, ops[0]);
      NextStays(w, ops[0]);
      RunStays(Next(w, ops[0]), ops[1..]);
    }
  }

  /** When nobody outside holds a reference, only links can account for the counts, so that before every buffer in
      use there is another: chains of any length. */
  lemma {:induction false} LongChain(w: World, x: int, n: nat) returns (y: int, ys: seq<int>)
    requires Inv(w) && w.outside == multiset{} && x in w.live
    ensures y in w.live && IsList(w.mem, y, ys) && |ys| > n
    decreases n
  {
    hide Inv;
    if n == 0 {
      y, ys := x, Path(w.mem, x);
      PathOf(w, x);
    } else {
      var z, zs := LongChain(w, x, n - 1);
      y := SomeLinker(w, z);
      ys := [y] + zs;
      assert ys[1..] == zs;
    }
  }

  lemma EmptyOrNot(s: set<int>)
    ensures s == {} || exists x :: x in s
  {
    if forall x :: x !in s {
      assert s == {};
    }
  }

  lemma SomeLinker(w: World, z: int) returns (y: int)
    requires Inv(w) && w.outside == multiset{} && z in w.live
    ensures y in w.live && y in w.mem && y != NULL && w.mem[y].next == z
  {
    var s := Linkers(w.mem, w.live, z);
    assert |s| > 0;
    hide Inv;
    EmptyOrNot(s);
    y :| y in s;
    Positive(w, y);
  }

  lemma {:induction false} NoMoreThan(s: set<int>, ps: seq<int>)
    requires forall i :: 0 <= i < |ps| ==> ps[i] in s
    requires forall i, j :: 0 <= i < j < |ps| ==> ps[i] != ps[j]
    ensures |ps| <= |s|
    decreases |ps|
  {
    if ps != [] {
      NoMoreThan(s - {ps[0]}, ps[1..]);
    }
  }

  /** So no buffer is in use, and all there are are free. */
  lemma NothingHeldNothingUsed(w: World)
    requires Inv(w) && w.outside == multiset{}
    ensures w.live == {} && forall a :: a in w.mem <==> a in w.free
  {
    hide Inv;
    EmptyOrNot(w.live);
    if x :| x in w.live {
      var y, ys := LongChain(w, x, |w.live|);
      forall i | 0 <= i < |ys| ensures ys[i] in w.live {
        LiveOnChain(w, y, ys, i);
      }
      forall i, j | 0 <= i < j < |ys| ensures ys[i] != ys[j] {
        ListDistinct(w.mem, y, ys, i, j);
      }
      NoMoreThan(w.live, ys);
      assert false;
    }
    FreeSet(w);
  }

  /** After any run of calls in which every reference that was handed out has been given back, no buffer is in use
      and every buffer of the pool is on its free list. */
  lemma EverythingReturned(w: World, ops: seq<Op>)
    requires Inv(w) && AllAllowed(w, ops) && Run(w, ops).outside == multiset{}
    ensures Run(w, ops).live == {}
    ensures forall a :: a in w.mem && w.mem[a].kind.Pool? ==> a in Run(w, ops).free
  {
    hide Inv;
    hide Run;
    hide AllAllowed;
    RunKeeps(w, ops);
    RunStays(w, ops);
    NothingHeldNothingUsed(Run(w, ops));
  }

  /** In every state of a run the count of a buffer in use is the number of references to it. */
  lemma CountsAreReferences(w: World, ops: seq<Op>, x: int)
    requires Inv(w) && AllAllowed(w, ops) && x in Run(w, ops).live
    ensures var w' := Run(w, ops);
            x in w'.mem && w'.mem[x].ref == w'.outside[x] + |Linkers(w'.mem, w'.live, x)| > 0
  {
    hide Run;
    hide AllAllowed;
    RunKeeps(w, ops);
  }

  // ---------------------------------------------------------------------------------------------
  // What does not hold

  /** The chain ps has one reference to each buffer, and no address from a on is used. */
  ghost predicate Building(w: World, ps: seq<int>, a: int) {
    && Inv(w) && a > NULL
    && ps != [] && ps[0] in w.outside && IsList(w.mem, ps[0], ps)
    && (forall i :: 0 <= i < |ps| ==> ps[i] in w.mem && w.mem[ps[i]].ref == 1)
    && (forall x :: x in w.mem ==> x < a)
  }

  /** A buffer without data. */
  function Small(a: int): Op { FromMemory(Ram, Raw, 0, a) }

  lemma SmallIsMade(w: World, a: int)
    requires Inv(w) && a > NULL && forall x :: x in w.mem ==> x < a
    ensures Allowed(w, Small(a)) && Next(w, Small(a)) == Take(w, a, Single(Ram, 0, 0))
    ensures Inv(Take(w, a, Single(Ram, 0, 0)))
    ensures IsList(Take(w, a, Single(Ram, 0, 0)).mem, a, [a])
  {
    NextKeeps(w, Small(a));
    assert [a][1..] == [];
  }

  /** The first buffer. */
  lemma OneSmall(w: World, a: int)
    requires Inv(w) && a > NULL && forall x :: x in w.mem ==> x < a
    ensures Allowed(w, Small(a)) && Building(Next(w, Small(a)), [a], a + 1)
  {
    hide Inv;
    SmallIsMade(w, a);
    hide Next;
    SingleFields(Ram, 0, 0);
    hide Single;
  }

  lemma PathIs(w: World, p: int, ps: seq<int>)
    requires IsList(w.mem, p, ps)
    ensures Path(w.mem, p) == ps
  {
    ListUnique(w.mem, p, Path(w.mem, p), ps);
  }

  /** The joined world, but for lengths. */
  lemma CatFrame(w: World, h: int, t: int)
    requires h in w.mem && t in w.mem
    ensures var w' := PbufChains.Cat(w, [h], t);
            && w'.mem.Keys == w.mem.Keys && w'.outside == w.outside - multiset{t}
            && forall x :: x in w.mem ==> x in w'.mem && w'.mem[x].ref == w.mem[x].ref
  {
  }

  /** One more buffer in front. */
  lemma OneMore(w: World, ps: seq<int>, a: int)
    requires Building(w, ps, a)
    ensures Allowed(w, Small(a)) && Allowed(Next(w, Small(a)), Concatenate(a, ps[0]))
    ensures Building(Next(Next(w, Small(a)), Concatenate(a, ps[0])), [a] + ps, a + 1)
  {
    hide Inv;
    SmallIsMade(w, a);
    NextKeeps(w, Small(a));
    OutsideLive(w, ps[0]);
    SingleFields(Ram, 0, 0);
    hide Single;
    var w1, t := Take(w, a, Single(Ram, 0, 0)), ps[0];
    ListFrame(w.mem, w1.mem, t, ps);
    hide IsList;
    PathIs(w1, a, [a]);
    PathIs(w1, t, ps);
    assert a !in ps && w1.outside == w.outside + multiset{a};
    CatKeeps(w1, a, [a], t, ps);
    CatFrame(w1, a, t);
    NextKeeps(w1, Concatenate(a, t));
    hide PbufChains.Cat;
    var w2 := PbufChains.Cat(w1, [a], t);
    assert Next(w1, Concatenate(a, t)) == w2;
    assert w2.outside[a] > 0;
    forall x | x in w2.mem ensures x < a + 1 {
      assert x in w1.mem.Keys;
    }
  }

  /** Chains can be made as long as one likes. */
  lemma {:induction false} Longer(w: World, ps: seq<int>, a: int, k: nat) returns (ops: seq<Op>, qs: seq<int>, b: int)
    requires Building(w, ps, a)
    ensures AllAllowed(w, ops) && Building(Run(w, ops), qs, b) && |qs| == |ps| + k
    decreases k
  {
    hide Building;
    hide Allowed;
    hide Next;
    if k == 0 {
      ops, qs, b := [], ps, a;
    } else {
      NotEmpty(w, ps, a);
      OneMore(w, ps, a);
      var join := Concatenate(a, ps[0]);
      var w1 := Next(w, Small(a));
      var w2 := Next(w1, join);
      var more;
      more, qs, b := Longer(w2, [a] + ps, a + 1, k - 1);
      ops := [Small(a), join] + more;
      assert ops[1..] == [join] + more && ([join] + more)[1..] == more;
      assert AllAllowed(w1, [join] + more) && Run(w1, [join] + more) == Run(w2, more);
    }
  }

  lemma NotEmpty(w: World, ps: seq<int>, a: int)
    requires Building(w, ps, a)
    ensures ps != []
  {
  }

  lemma {:induction false} AllCounted(mem: Memory, ps: seq<int>)
    requires forall i :: 0 <= i < |ps| ==> ps[i] in mem && mem[ps[i]].ref == 1
    ensures Count(mem, ps) == |ps|
    decreases |ps|
  {
    if ps != [] {
      AllCounted(mem, ps[1..]);
    }
  }

  /** The 8 bits of pbuf_free: in some run there is a chain of 257 buffers without data, for which the heap has
      room; pbuf_dechain frees the last 256 of them, pbuf_free returns 0, and the result is the freed rest. */
  lemma FreedRestReturned(w: World, a: int) returns (ops: seq<Op>, ps: seq<int>)
    requires Inv(w) && a > NULL && forall x :: x in w.mem ==> x < a
    ensures AllAllowed(w, ops) && |ps| == 257
    ensures var w' := Run(w, ops);
            && Allowed(w', Separate(ps[0])) && IsList(w'.mem, ps[0], ps)
            && Count(w'.mem, ps[1..]) == 256
            && Next(w', Separate(ps[0])) == Unchain(w', ps) && !RightRest(Unchain(w', ps), ps, ps[1])
  {
    OneSmall(w, a);
    var more, qs, b := Longer(Next(w, Small(a)), [a], a + 1, 256);
    ops, ps := [Small(a)] + more, qs;
    assert ops[1..] == more;
    var w' := Run(w, ops);
    assert Building(w', ps, b);
    hide Run;
    hide AllAllowed;
    FreedRest(w', ps, b);
  }

  lemma FreedRest(w: World, ps: seq<int>, a: int)
    requires Building(w, ps, a) && |ps| == 257
    ensures Allowed(w, Separate(ps[0])) && IsList(w.mem, ps[0], ps) && Count(w.mem, ps[1..]) == 256
    ensures Next(w, Separate(ps[0])) == Unchain(w, ps) && !RightRest(Unchain(w, ps), ps, ps[1])
  {
    hide Inv;
    hide Unchain;
    hide IsList;
    OutsideLive(w, ps[0]);
    PathIs(w, ps[0], ps);
    RestStays(w, ps[0], ps);
    AllCounted(w.mem, ps[1..]);
    hide Count;
  }
}
