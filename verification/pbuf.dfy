/**
 * Packet buffers of pbuf.c: structures at addresses, linked into chains, with a count of the references to
 * each, and a pool whose free buffers are linked through the same fields.
 */
module Pbufs {
  import opened Bytes

  const NULL := 0
  const U16 := 0x1_0000
  const POOL_SIZE := 128
  const POOL_BUFSIZE := 128

  datatype Kind = Pool | Ram | Rom | Ref

  /** struct pbuf; bytes is the memory behind it, and payload an index into that. */
  datatype Buf = Buf(ref: nat, len: nat, totLen: nat, next: int, kind: Kind, bytes: seq<u8>, payload: nat)

  type Memory = map<int, Buf>

  /** The memory and the head of the pool; and, to state what the counts mean, the buffers in use, the free
      list, and the references held outside of the chains. */
  datatype World = World(mem: Memory, pool: int, live: set<int>, free: seq<int>, outside: multiset<int>)

  /** ps are the addresses along the links from p to the end. */
  predicate IsList(mem: Memory, p: int, ps: seq<int>)
    decreases |ps|
  {
    if ps == [] then p == NULL
    else p != NULL && ps[0] == p && p in mem && IsList(mem, mem[p].next, ps[1..])
  }

  /** The buffers in use that link to x. */
  function Linkers(mem: Memory, live: set<int>, x: int): set<int> {
    set q | q in live && q in mem && mem[q].next == x
  }

  ghost predicate Ends(mem: Memory, p: int) {
    exists ps :: IsList(mem, p, ps)
  }

  /** The pool is intact: its free buffers are on the free list, and no buffer is both free and in use. */
  ghost predicate PoolOk(w: World) {
    && NULL !in w.mem
    && IsList(w.mem, w.pool, w.free)
    && (forall a :: a in w.mem <==> a in w.live || a in w.free)
    && (forall a :: a in w.live ==> a !in w.free)
    && (forall a :: a in w.free ==> w.mem[a].kind.Pool?)
  }

  /** Buffers in use link to buffers in use, and every chain ends. */
  ghost predicate ChainsOk(w: World) {
    forall q :: q in w.live ==> q in w.mem && (w.mem[q].next == NULL || w.mem[q].next in w.live) && Ends(w.mem, q)
  }

  /** The count of a buffer in use is the number of references to it: those held outside, and the links. */
  ghost predicate CountsOk(w: World) {
    && (forall x :: x in w.outside ==> x in w.live)
    && (forall x :: x in w.live ==> x in w.mem && w.mem[x].ref == w.outside[x] + |Linkers(w.mem, w.live, x)| > 0)
  }

  ghost predicate Inv(w: World) {
    PoolOk(w) && ChainsOk(w) && CountsOk(w)
  }

  // ---------------------------------------------------------------------------------------------
  // Lists

  lemma {:induction false} ListUnique(mem: Memory, p: int, ps: seq<int>, qs: seq<int>)
    requires IsList(mem, p, ps) && IsList(mem, p, qs)
    ensures ps == qs
    decreases |ps|
  {
    if ps != [] {
      ListUnique(mem, mem[p].next, ps[1..], qs[1..]);
    }
  }

  /** From any place of a list the rest of the list follows. */
  lemma {:induction false} ListFrom(mem: Memory, p: int, ps: seq<int>, i: nat)
    requires IsList(mem, p, ps) && i <= |ps|
    ensures IsList(mem, if i < |ps| then ps[i] else NULL, ps[i..])
    ensures i < |ps| ==> ps[i] in mem && ps[i] != NULL
    decreases |ps|
  {
    if i > 0 {
      ListFrom(mem, mem[p].next, ps[1..], i - 1);
      assert ps[1..][i - 1..] == ps[i..];
    }
  }

  /** No address comes twice. */
  lemma ListDistinct(mem: Memory, p: int, ps: seq<int>, i: nat, j: nat)
    requires IsList(mem, p, ps) && i < j < |ps|
    ensures ps[i] != ps[j]
  {
    ListFrom(mem, p, ps, i);
    ListFrom(mem, p, ps, j);
    if ps[i] == ps[j] {
      ListUnique(mem, ps[i], ps[i..], ps[j..]);
    }
  }

  /** A list stays when no link on it changes. */
  lemma {:induction false} ListFrame(mem: Memory, mem': Memory, p: int, ps: seq<int>)
    requires IsList(mem, p, ps)
    requires forall x :: x in ps && x in mem ==> x in mem' && mem'[x].next == mem[x].next
    ensures IsList(mem', p, ps)
    decreases |ps|
  {
    if ps != [] {
      ListFrame(mem, mem', mem[p].next, ps[1..]);
    }
  }

  /** Ending a list at its last buffer in the link to another list joins them. */
  lemma {:induction false} ListJoin(mem: Memory, p: int, ps: seq<int>, t: int, ts: seq<int>)
    requires IsList(mem, p, ps) && ps != [] && IsList(mem, t, ts) && ps[|ps| - 1] in mem && ps[|ps| - 1] !in ts
    ensures var r := ps[|ps| - 1]; IsList(mem[r := mem[r].(next := t)], p, ps + ts)
    decreases |ps|
  {
    var r := ps[|ps| - 1];
    var mem' := mem[r := mem[r].(next := t)];
    if |ps| == 1 {
      ListFrame(mem, mem', t, ts);
      assert (ps + ts)[1..] == ts;
    } else {
      ListDistinct(mem, p, ps, 0, |ps| - 1);
      ListJoin(mem, mem[p].next, ps[1..], t, ts);
      assert (ps + ts)[1..] == ps[1..] + ts;
    }
  }

  // ---------------------------------------------------------------------------------------------
  // The steps the operations are made of

  /** One reference more, held outside. */
  function AddRef(w: World, p: int): World
    requires p in w.mem
  {
    w.(mem := w.mem[p := w.mem[p].(ref := w.mem[p].ref + 1)], outside := w.outside + multiset{p})
  }

  /** A buffer as the pool keeps it. */
  function Pooled(b: Buf, next: int): Buf {
    b.(ref := 0, len := POOL_BUFSIZE, totLen := POOL_BUFSIZE, next := next, payload := 0)
  }

  /** One reference less. */
  function DropRef(w: World, p: int): World
    requires p in w.mem && w.mem[p].ref > 0
  {
    w.(mem := w.mem[p := w.mem[p].(ref := w.mem[p].ref - 1)], outside := w.outside - multiset{p})
  }

  /** The last reference to p goes, and p with it; the reference it held to the next buffer is left over. */
  function Release(w: World, p: int): World
    requires p in w.mem
  {
    var b := w.mem[p];
    var outside := w.outside - multiset{p} + (if b.next != NULL then multiset{b.next} else multiset{});
    if b.kind.Pool?
    then World(w.mem[p := Pooled(b, w.pool)], p, w.live - {p}, [p] + w.free, outside)
    else World(w.mem - {p}, w.pool, w.live - {p}, w.free, outside)
  }

  /** pbuf_free, along the chain ps. */
  function Free(w: World, ps: seq<int>): World
    decreases |ps|
  {
    if ps == [] || ps[0] !in w.mem || w.mem[ps[0]].ref == 0 then w
    else if w.mem[ps[0]].ref > 1 then DropRef(w, ps[0])
    else Free(Release(w, ps[0]), ps[1..])
  }

  /** How many buffers pbuf_free gives back: those at the front with one reference only. */
  function Count(mem: Memory, ps: seq<int>): (n: nat)
    ensures n <= |ps|
    ensures forall i :: 0 <= i < n ==> ps[i] in mem && mem[ps[i]].ref == 1
    ensures n < |ps| && ps[n] in mem ==> mem[ps[n]].ref != 1
    decreases |ps|
  {
    if ps != [] && ps[0] in mem && mem[ps[0]].ref == 1 then 1 + Count(mem, ps[1..]) else 0
  }

  /** The link from r, which has none, to t; it takes over a reference held outside. */
  function Link(w: World, r: int, t: int): World
    requires r in w.mem
  {
    w.(mem := w.mem[r := w.mem[r].(next := t)], outside := w.outside - multiset{t})
  }

  /** The link from p is cut; the reference is then held outside. */
  function Unlink(w: World, p: int): World
    requires p in w.mem
  {
    w.(mem := w.mem[p := w.mem[p].(next := NULL)],
       outside := w.outside + if w.mem[p].next != NULL then multiset{w.mem[p].next} else multiset{})
  }

  /** A new buffer, with one reference held outside. */
  function Take(w: World, p: int, b: Buf): World {
    w.(mem := w.mem[p := b], live := w.live + {p}, outside := w.outside + multiset{p})
  }

  /** A buffer from the pool. */
  function TakePool(w: World, len: nat, totLen: nat, payload: nat): World
    requires w.free != [] && w.pool in w.mem
  {
    var b := w.mem[w.pool];
    Take(w.(pool := b.next, free := w.free[1..]), w.pool,
        b.(ref := 1, len := len, totLen := totLen, next := NULL, payload := payload))
  }

  // ---------------------------------------------------------------------------------------------
  // Each keeps the invariant

  lemma EndsFrame(mem: Memory, mem': Memory, p: int)
    requires Ends(mem, p) && forall x :: x in mem ==> x in mem' && mem'[x].next == mem[x].next
    ensures Ends(mem', p)
  {
    var ps :| IsList(mem, p, ps);
    ListFrame(mem, mem', p, ps);
  }

  /** Changing counts and lengths only changes nothing about links. */
  lemma SameLinks(w: World, w': World)
    requires PoolOk(w) && ChainsOk(w) && w'.pool == w.pool && w'.live == w.live && w'.free == w.free
    requires w'.mem.Keys == w.mem.Keys
    requires forall x :: x in w.mem ==> w'.mem[x].next == w.mem[x].next && w'.mem[x].kind == w.mem[x].kind
    ensures PoolOk(w') && ChainsOk(w')
    ensures forall x :: Linkers(w'.mem, w'.live, x) == Linkers(w.mem, w.live, x)
  {
    ListFrame(w.mem, w'.mem, w.pool, w.free);
    forall q | q in w.live ensures Ends(w'.mem, q) {
      EndsFrame(w.mem, w'.mem, q);
    }
    forall x ensures Linkers(w'.mem, w'.live, x) == Linkers(w.mem, w.live, x) {
      SameLinkers(w, w', x);
    }
  }

  lemma SameLinkers(w: World, w': World, x: int)
    requires w'.mem.Keys == w.mem.Keys && w'.live == w.live && forall q :: q in w.mem ==>
             w'.mem[q].next == w.mem[q].next
    ensures Linkers(w'.mem, w'.live, x) == Linkers(w.mem, w.live, x)
  {
    forall q ensures q in Linkers(w'.mem, w'.live, x) <==> q in Linkers(w.mem, w.live, x) {
      assert q in w'.mem.Keys <==> q in w.mem.Keys;
    }
  }

  lemma AddRefKeeps(w: World, p: int)
    requires Inv(w) && p in w.live
    ensures Inv(AddRef(w, p))
  {
    SameLinks(w, AddRef(w, p));
  }

  lemma DropRefKeeps(w: World, p: int)
    requires Inv(w) && p in w.outside && w.mem[p].ref > 1
    ensures Inv(DropRef(w, p))
  {
    SameLinks(w, DropRef(w, p));
  }

  /** Along a chain from a buffer in use, all are in use. */
  lemma {:induction false} ChainLive(w: World, p: int, ps: seq<int>, i: nat)
    requires ChainsOk(w) && p in w.live && IsList(w.mem, p, ps) && i < |ps|
    ensures ps[i] in w.live && ps[i] in w.mem
    decreases |ps|
  {
    if i > 0 {
      ChainLive(w, w.mem[p].next, ps[1..], i - 1);
    }
  }

  /** A buffer to which nothing links is on no other chain. */
  lemma {:induction false} NotOnChain(w: World, q: int, qs: seq<int>, p: int)
    requires ChainsOk(w) && q in w.live && IsList(w.mem, q, qs) && q != p && Linkers(w.mem, w.live, p) == {}
    ensures p !in qs
    decreases |qs|
  {
    if |qs| > 1 {
      assert w.mem[q].next == p ==> q in Linkers(w.mem, w.live, p);
      NotOnChain(w, w.mem[q].next, qs[1..], p);
    }
  }

  lemma NoLinkers(w: World, p: int)
    requires CountsOk(w) && p in w.outside && w.mem[p].ref == 1
    ensures w.outside[p] == 1 && Linkers(w.mem, w.live, p) == {}
  {
  }

  lemma ReleasePool(w: World, p: int)
    requires PoolOk(w) && p in w.live
    ensures PoolOk(Release(w, p))
  {
    var w' := Release(w, p);
    assert w.mem[p].kind.Pool? ==> w'.free[1..] == w.free;
    ListFrame(w.mem, w'.mem, w.pool, w.free);
  }

  lemma ReleaseChains(w: World, p: int)
    requires ChainsOk(w) && p in w.live && Linkers(w.mem, w.live, p) == {}
    ensures ChainsOk(Release(w, p))
  {
    var w' := Release(w, p);
    forall q | q in w'.live
      ensures q in w'.mem && (w'.mem[q].next == NULL || w'.mem[q].next in w'.live) && Ends(w'.mem, q)
    {
      var qs :| IsList(w.mem, q, qs);
      NotOnChain(w, q, qs, p);
      ListFrame(w.mem, w'.mem, q, qs);
      assert w.mem[q].next == p ==> q in Linkers(w.mem, w.live, p);
    }
  }

  lemma ReleaseLinkers(w: World, p: int, x: int)
    requires p in w.live && p in w.mem
    ensures Linkers(Release(w, p).mem, Release(w, p).live, x) == Linkers(w.mem, w.live, x) - {p}
    ensures p in Linkers(w.mem, w.live, x) <==> w.mem[p].next == x
  {
  }

  lemma ReleaseCounts(w: World, p: int)
    requires ChainsOk(w) && CountsOk(w) && p in w.outside && w.mem[p].ref == 1 && NULL !in w.mem
    ensures CountsOk(Release(w, p))
  {
    hide Linkers;
    hide Ends;
    NoLinkers(w, p);
    var w' := Release(w, p);
    ReleaseOutside(w, p);
    ReleaseLinkers(w, p, p);
    assert p !in w'.live;
    hide Release;
    forall x | x in w'.live
      ensures x in w'.mem && w'.mem[x].ref == w'.outside[x] + |Linkers(w'.mem, w'.live, x)| > 0
    {
      ReleaseLinkers(w, p, x);
      ReleaseFrame(w, p, x);
    }
  }

  lemma ReleaseKeeps(w: World, p: int)
    requires Inv(w) && p in w.outside && w.mem[p].ref == 1
    ensures Inv(Release(w, p))
  {
    NoLinkers(w, p);
    ReleasePool(w, p);
    ReleaseChains(w, p);
    ReleaseCounts(w, p);
  }

  /** pbuf_free takes away the given reference, and keeps the invariant. */
  lemma {:induction false} FreeKeeps(w: World, ps: seq<int>)
    requires Inv(w) && ps != [] && ps[0] in w.outside && IsList(w.mem, ps[0], ps)
    ensures Inv(Free(w, ps))
    decreases |ps|
  {
    hide Release;
    hide DropRef;
    hide Inv;
    var p := ps[0];
    Referenced(w, p);
    if w.mem[p].ref > 1 {
      DropRefKeeps(w, p);
    } else {
      ReleaseKeeps(w, p);
      ReleaseRest(w, p, ps);
      if |ps| > 1 {
        FreeKeeps(Release(w, p), ps[1..]);
      }
    }
  }

  lemma Referenced(w: World, p: int)
    requires Inv(w) && p in w.outside
    ensures p in w.live && p in w.mem && w.mem[p].ref > 0
  {
  }

  /** After the release the next buffer has the reference that is left over. */
  lemma ReleaseRest(w: World, p: int, ps: seq<int>)
    requires Inv(w) && p in w.outside && IsList(w.mem, p, ps) && ps != [] && w.mem[p].ref == 1
    ensures IsList(Release(w, p).mem, w.mem[p].next, ps[1..])
    ensures |ps| > 1 ==> ps[1] == w.mem[p].next && ps[1] in Release(w, p).outside
  {
    hide CountsOk;
    hide PoolOk;
    hide Linkers;
    if |ps| > 1 {
      NoLinkers(w, p);
      ListDistinct(w.mem, p, ps, 0, 1);
      Referenced(w, p);
      ChainLive(w, p, ps, 1);
      NotOnChain(w, ps[1], ps[1..], p);
      hide ChainsOk;
      ListFrame(w.mem, Release(w, p).mem, w.mem[p].next, ps[1..]);
    }
  }

  // ---------------------------------------------------------------------------------------------
  // Links

  /** Adding the link from the last buffer of a chain to a buffer whose chain does not lead back. */
  lemma LinkKeeps(w: World, h: int, hs: seq<int>, t: int, ts: seq<int>)
    requires Inv(w) && hs != [] && IsList(w.mem, h, hs) && h in w.live && t in w.outside && IsList(w.mem, t, ts)
    requires hs[|hs| - 1] !in ts
    ensures hs[|hs| - 1] in w.live && hs[|hs| - 1] in w.mem
    ensures Inv(Link(w, hs[|hs| - 1], t))
  {
    var r := hs[|hs| - 1];
    ChainLive(w, h, hs, |hs| - 1);
    ListFrom(w.mem, h, hs, |hs| - 1);
    assert hs[|hs| - 1..][1..] == [];
    LinkPool(w, r, t);
    LinkChains(w, r, t, ts);
    LinkCounts(w, r, t);
  }

  lemma LinkPool(w: World, r: int, t: int)
    requires PoolOk(w) && r in w.live
    ensures PoolOk(Link(w, r, t))
  {
    ListFrame(w.mem, Link(w, r, t).mem, w.pool, w.free);
  }

  lemma LinkChains(w: World, r: int, t: int, ts: seq<int>)
    requires ChainsOk(w) && r in w.live && r in w.mem && w.mem[r].next == NULL && t in w.live
    requires IsList(w.mem, t, ts) && r !in ts
    ensures ChainsOk(Link(w, r, t))
  {
    var w' := Link(w, r, t);
    forall q | q in w'.live ensures Ends(w'.mem, q) {
      var qs :| IsList(w.mem, q, qs);
      if r in qs {
        EndsAt(w.mem, q, qs, r);
        ListJoin(w.mem, q, qs, t, ts);
      } else {
        ListFrame(w.mem, w'.mem, q, qs);
      }
    }
  }

  /** The buffer without a link is the last of every chain it is on. */
  lemma EndsAt(mem: Memory, q: int, qs: seq<int>, r: int)
    requires IsList(mem, q, qs) && r in qs && r in mem && mem[r].next == NULL
    ensures qs[|qs| - 1] == r
  {
    var i :| 0 <= i < |qs| && qs[i] == r;
    ListFrom(mem, q, qs, i);
    assert qs[i..][1..] == qs[i + 1..];
  }

  lemma LinkLinkers(w: World, r: int, t: int, x: int)
    requires r in w.live && r in w.mem && w.mem[r].next == NULL && x != NULL
    ensures Linkers(Link(w, r, t).mem, w.live, x) == Linkers(w.mem, w.live, x) + (if x == t then {r} else {})
    ensures r !in Linkers(w.mem, w.live, x)
  {
  }

  lemma LinkCounts(w: World, r: int, t: int)
    requires CountsOk(w) && NULL !in w.mem && r in w.live && r in w.mem && w.mem[r].next == NULL && t in w.outside
    ensures CountsOk(Link(w, r, t))
  {
    hide Linkers;
    var w' := Link(w, r, t);
    forall x | x in w'.live
      ensures x in w'.mem && w'.mem[x].ref == w'.outside[x] + |Linkers(w'.mem, w'.live, x)| > 0
    {
      LinkLinkers(w, r, t, x);
    }
  }

  lemma UnlinkKeeps(w: World, p: int)
    requires Inv(w) && p in w.live
    ensures Inv(Unlink(w, p))
  {
    UnlinkPool(w, p);
    UnlinkChains(w, p);
    UnlinkCounts(w, p);
  }

  lemma UnlinkPool(w: World, p: int)
    requires PoolOk(w) && p in w.live
    ensures PoolOk(Unlink(w, p))
  {
    ListFrame(w.mem, Unlink(w, p).mem, w.pool, w.free);
  }

  /** A chain cut behind p. */
  lemma {:induction false} ListCut(mem: Memory, q: int, qs: seq<int>, p: int)
    requires IsList(mem, q, qs) && p in mem
    ensures Ends(mem[p := mem[p].(next := NULL)], q)
    decreases |qs|
  {
    var mem' := mem[p := mem[p].(next := NULL)];
    if qs == [] {
      assert IsList(mem', q, []);
    } else if q == p {
      assert IsList(mem', q, [q]) by { assert [q][1..] == []; }
    } else {
      ListCut(mem, mem[q].next, qs[1..], p);
      var rest :| IsList(mem', mem[q].next, rest);
      assert ([q] + rest)[1..] == rest;
      assert IsList(mem', q, [q] + rest);
    }
  }

  lemma UnlinkChains(w: World, p: int)
    requires ChainsOk(w) && p in w.live
    ensures ChainsOk(Unlink(w, p))
  {
    forall q | q in w.live ensures Ends(Unlink(w, p).mem, q) {
      var qs :| IsList(w.mem, q, qs);
      ListCut(w.mem, q, qs, p);
    }
  }

  lemma UnlinkLinkers(w: World, p: int, x: int)
    requires p in w.live && p in w.mem && x != NULL
    ensures Linkers(Unlink(w, p).mem, w.live, x) == Linkers(w.mem, w.live, x) - {p}
    ensures p in Linkers(w.mem, w.live, x) <==> w.mem[p].next == x
  {
  }

  lemma UnlinkCounts(w: World, p: int)
    requires ChainsOk(w) && CountsOk(w) && NULL !in w.mem && p in w.live && p in w.mem
    ensures CountsOk(Unlink(w, p))
  {
    hide Linkers;
    var w' := Unlink(w, p);
    forall x | x in w'.live
      ensures x in w'.mem && w'.mem[x].ref == w'.outside[x] + |Linkers(w'.mem, w'.live, x)| > 0
    {
      UnlinkLinkers(w, p, x);
    }
  }

  // ---------------------------------------------------------------------------------------------
  // What pbuf_free gives back

  lemma {:induction false} CountFrame(mem: Memory, mem': Memory, ps: seq<int>)
    requires forall i :: 0 <= i < |ps| ==>
             (ps[i] in mem <==> ps[i] in mem') && (ps[i] in mem ==> mem'[ps[i]] == mem[ps[i]])
    ensures Count(mem', ps) == Count(mem, ps)
    decreases |ps|
  {
    if ps != [] {
      CountFrame(mem, mem', ps[1..]);
    }
  }

  /** What one release changes. */
  lemma ReleaseFrame(w: World, p: int, x: int)
    requires p in w.mem && x != p
    ensures x in Release(w, p).mem <==> x in w.mem
    ensures x in w.mem ==> Release(w, p).mem[x] == w.mem[x]
    ensures x in Release(w, p).live <==> x in w.live
  {
  }

  lemma HeadNotInTail(mem: Memory, p: int, ps: seq<int>)
    requires IsList(mem, p, ps) && ps != []
    ensures forall i :: 0 < i < |ps| ==> ps[i] != p
  {
    forall i | 0 < i < |ps| ensures ps[i] != p {
      ListDistinct(mem, p, ps, 0, i);
    }
  }

  /** The rest of the chain is as it was after a release. */
  lemma RestCount(w: World, p: int, ps: seq<int>)
    requires IsList(w.mem, p, ps) && ps != []
    ensures Count(Release(w, p).mem, ps[1..]) == Count(w.mem, ps[1..])
  {
    HeadNotInTail(w.mem, p, ps);
    forall i | 0 <= i < |ps[1..]|
      ensures ps[1..][i] in w.mem <==> ps[1..][i] in Release(w, p).mem
      ensures ps[1..][i] in w.mem ==> Release(w, p).mem[ps[1..][i]] == w.mem[ps[1..][i]]
    {
      ReleaseFrame(w, p, ps[i + 1]);
    }
    hide Release;
    CountFrame(w.mem, Release(w, p).mem, ps[1..]);
  }

  /** The same buffer, with its count lowered or not. */
  predicate Lowered(b: Buf, b': Buf, lowered: bool) {
    b' == b.(ref := b'.ref) && b.ref == b'.ref + if lowered then 1 else 0
  }

  /** pbuf_free gives back exactly the buffers at the front that have no other reference, takes one from the
      count of the buffer it stops at, and leaves every other buffer in use as it is. */
  lemma {:induction false} FreeExactly(w: World, ps: seq<int>, x: int)
    requires Inv(w) && ps != [] && ps[0] in w.outside && IsList(w.mem, ps[0], ps)
    ensures var n, w' := Count(w.mem, ps), Free(w, ps);
            && (x in w'.live <==> x in w.live && x !in ps[..n])
            && (x in w'.live ==> x in w'.mem && x in w.mem && Lowered(w.mem[x], w'.mem[x], n < |ps| && x == ps[n]))
    decreases |ps|
  {
    hide Inv;
    var p, n := ps[0], Count(w.mem, ps);
    Referenced(w, p);
    LiveInMemory(w);
    if w.mem[p].ref == 1 {
      var w1 := Release(w, p);
      ReleaseKeeps(w, p);
      ReleaseRest(w, p, ps);
      RestCount(w, p, ps);
      HeadNotInTail(w.mem, p, ps);
      assert ps[..n] == [p] + ps[1..][..n - 1];
      if x != p {
        ReleaseFrame(w, p, x);
        hide Release;
        if |ps| > 1 {
          FreeExactly(w1, ps[1..], x);
        }
      } else {
        FreedStays(w1, ps[1..], x);
      }
    }
  }

  lemma {:induction false} FreedStays(w: World, ps: seq<int>, x: int)
    requires x !in w.live
    ensures x !in Free(w, ps).live
    decreases |ps|
  {
    if ps != [] && ps[0] in w.mem && w.mem[ps[0]].ref == 1 {
      FreedStays(Release(w, ps[0]), ps[1..], x);
    }
  }

  lemma LiveInMemory(w: World)
    requires Inv(w)
    ensures forall x :: x in w.live ==> x in w.mem
  {
  }

  lemma ReleaseOutside(w: World, p: int)
    requires p in w.mem
    ensures Release(w, p).outside ==
            w.outside - multiset{p} + if w.mem[p].next != NULL then multiset{w.mem[p].next} else multiset{}
  {
  }

  /** Of the references held outside, pbuf_free uses up the one it is given. */
  lemma {:induction false} FreeOutside(w: World, ps: seq<int>)
    requires Inv(w) && ps != [] && ps[0] in w.outside && IsList(w.mem, ps[0], ps)
    ensures Free(w, ps).outside == w.outside - multiset{ps[0]}
    decreases |ps|
  {
    hide Inv;
    var p := ps[0];
    Referenced(w, p);
    if w.mem[p].ref == 1 {
      ReleaseKeeps(w, p);
      ReleaseRest(w, p, ps);
      ReleaseOutside(w, p);
      hide Release;
      if |ps| > 1 {
        FreeOutside(Release(w, p), ps[1..]);
      }
    }
  }

  // ---------------------------------------------------------------------------------------------
  // New buffers

  lemma TakeLinkers(w: World, p: int, b: Buf, x: int)
    requires p !in w.live && b.next == NULL && x != NULL && forall q :: q in w.live ==> q in w.mem
    ensures Linkers(Take(w, p, b).mem, Take(w, p, b).live, x) == Linkers(w.mem, w.live, x)
  {
  }

  /** A buffer that is not in use, with one reference and no link, is added. */
  lemma TakeKeeps(w: World, p: int, b: Buf)
    requires ChainsOk(w) && CountsOk(w) && p !in w.live && p != NULL && NULL !in w.mem && b.next == NULL && b.ref == 1
    ensures ChainsOk(Take(w, p, b)) && CountsOk(Take(w, p, b))
  {
    TakeChains(w, p, b);
    TakeCounts(w, p, b);
  }

  lemma TakeChains(w: World, p: int, b: Buf)
    requires ChainsOk(w) && p !in w.live && p != NULL && b.next == NULL
    ensures ChainsOk(Take(w, p, b))
  {
    var w' := Take(w, p, b);
    forall q | q in w'.live ensures Ends(w'.mem, q) {
      if q == p {
        assert [p][1..] == [];
        assert IsList(w'.mem, p, [p]);
      } else {
        var qs :| IsList(w.mem, q, qs);
        forall i | 0 <= i < |qs| ensures qs[i] != p {
          ChainLive(w, q, qs, i);
        }
        ListFrame(w.mem, w'.mem, q, qs);
      }
    }
  }

  lemma TakeCounts(w: World, p: int, b: Buf)
    requires ChainsOk(w) && CountsOk(w) && p !in w.live && p != NULL && NULL !in w.mem && b.next == NULL && b.ref == 1
    ensures CountsOk(Take(w, p, b))
  {
    hide Linkers;
    hide Ends;
    var w' := Take(w, p, b);
    assert w.outside[p] == 0;
    assert |Linkers(w.mem, w.live, p)| == 0 by { NoneLinks(w, p); }
    forall x | x in w'.live
      ensures x in w'.mem && w'.mem[x].ref == w'.outside[x] + |Linkers(w'.mem, w'.live, x)| > 0
    {
      TakeLinkers(w, p, b, x);
    }
  }

  lemma NoneLinks(w: World, p: int)
    requires ChainsOk(w) && p !in w.live && p != NULL
    ensures Linkers(w.mem, w.live, p) == {}
  {
    forall q | q in w.live && q in w.mem ensures w.mem[q].next != p {
      assert w.mem[q].next == NULL || w.mem[q].next in w.live;
    }
  }

  /** A buffer in memory of its own. */
  lemma TakeNewKeeps(w: World, p: int, b: Buf)
    requires Inv(w) && p !in w.mem && p != NULL && b.next == NULL && b.ref == 1 && !b.kind.Pool?
    ensures Inv(Take(w, p, b))
  {
    TakeKeeps(w, p, b);
    ListFrame(w.mem, Take(w, p, b).mem, w.pool, w.free);
  }

  /** The first buffer of the pool. */
  lemma TakePoolKeeps(w: World, len: nat, totLen: nat, payload: nat)
    requires Inv(w) && w.free != []
    ensures w.pool in w.mem && w.pool == w.free[0] && w.pool !in w.live && Inv(TakePool(w, len, totLen, payload))
  {
    hide Linkers;
    hide Ends;
    TakePoolPool(w, len, totLen, payload);
    hide PoolOk;
    var b := w.mem[w.pool];
    var w1 := w.(pool := b.next, free := w.free[1..]);
    TakeKeeps(w1, w.pool, b.(ref := 1, len := len, totLen := totLen, next := NULL, payload := payload));
  }

  lemma TakePoolPool(w: World, len: nat, totLen: nat, payload: nat)
    requires PoolOk(w) && w.free != []
    ensures w.pool in w.mem && w.pool == w.free[0] && w.pool !in w.live && w.pool != NULL && NULL !in w.mem
    ensures PoolOk(TakePool(w, len, totLen, payload))
  {
    var p, w' := w.pool, TakePool(w, len, totLen, payload);
    HeadNotInTail(w.mem, p, w.free);
    ListFrame(w.mem, w'.mem, w.mem[p].next, w.free[1..]);
    assert w.free == [p] + w.free[1..];
  }

  // ---------------------------------------------------------------------------------------------
  // Lengths and contents

  /** The data of a chain: the sum of the lengths of its buffers. */
  function SumLen(mem: Memory, ps: seq<int>): nat {
    if ps == [] then 0 else (if ps[0] in mem then mem[ps[0]].len else 0) + SumLen(mem, ps[1..])
  }

  /** Every total length on the chain is the sum of the lengths from there on, in 16 bits. */
  ghost predicate TotOk(mem: Memory, ps: seq<int>) {
    forall i :: 0 <= i < |ps| ==> TotAt(mem, ps, i)
  }

  predicate TotAt(mem: Memory, ps: seq<int>, i: nat)
    requires i < |ps|
  {
    ps[i] in mem && mem[ps[i]].totLen == SumLen(mem, ps[i..]) % U16
  }

  /** The local form: the length of the buffer and the total length of the next one. */
  ghost predicate TotLocal(mem: Memory, p: int) {
    p in mem && mem[p].totLen == (mem[p].len + if mem[p].next in mem then mem[mem[p].next].totLen else 0) % U16
  }

  /** The bytes in use of a buffer. */
  function Data(b: Buf): (d: seq<u8>) {
    if b.payload + b.len <= |b.bytes| then b.bytes[b.payload..b.payload + b.len] else []
  }

  function Contents(mem: Memory, ps: seq<int>): seq<u8> {
    if ps == [] then [] else (if ps[0] in mem then Data(mem[ps[0]]) else []) + Contents(mem, ps[1..])
  }

  /** The data of each buffer lies in its memory. */
  ghost predicate HasData(mem: Memory, ps: seq<int>) {
    forall i :: 0 <= i < |ps| ==> ps[i] in mem && mem[ps[i]].payload + mem[ps[i]].len <= |mem[ps[i]].bytes|
  }

  lemma {:induction false} SumLenFrame(mem: Memory, mem': Memory, ps: seq<int>)
    requires forall i :: 0 <= i < |ps| ==> ps[i] in mem && ps[i] in mem' && mem'[ps[i]].len == mem[ps[i]].len
    ensures SumLen(mem', ps) == SumLen(mem, ps)
    decreases |ps|
  {
    if ps != [] {
      SumLenFrame(mem, mem', ps[1..]);
    }
  }

  lemma {:induction false} ContentsFrame(mem: Memory, mem': Memory, ps: seq<int>)
    requires forall i :: 0 <= i < |ps| ==> ps[i] in mem && ps[i] in mem' && Data(mem'[ps[i]]) == Data(mem[ps[i]])
    ensures Contents(mem', ps) == Contents(mem, ps)
    decreases |ps|
  {
    if ps != [] {
      ContentsFrame(mem, mem', ps[1..]);
    }
  }

  lemma {:induction false} SumLenConcat(mem: Memory, ps: seq<int>, qs: seq<int>)
    ensures SumLen(mem, ps + qs) == SumLen(mem, ps) + SumLen(mem, qs)
    decreases |ps|
  {
    if ps == [] {
      assert ps + qs == qs;
    } else {
      assert (ps + qs)[1..] == ps[1..] + qs;
      SumLenConcat(mem, ps[1..], qs);
    }
  }

  lemma {:induction false} ContentsConcat(mem: Memory, ps: seq<int>, qs: seq<int>)
    ensures Contents(mem, ps + qs) == Contents(mem, ps) + Contents(mem, qs)
    decreases |ps|
  {
    if ps == [] {
      assert ps + qs == qs;
    } else {
      assert (ps + qs)[1..] == ps[1..] + qs;
      ContentsConcat(mem, ps[1..], qs);
    }
  }

  lemma {:induction false} ContentsLength(mem: Memory, ps: seq<int>)
    requires HasData(mem, ps)
    ensures |Contents(mem, ps)| == SumLen(mem, ps)
    decreases |ps|
  {
    if ps != [] {
      ContentsLength(mem, ps[1..]);
    }
  }

  /** The field documented in pbuf.h is that sum. */
  lemma TotIsLocal(mem: Memory, p: int, ps: seq<int>)
    requires IsList(mem, p, ps) && NULL !in mem && TotOk(mem, ps)
    ensures forall i :: 0 <= i < |ps| ==> TotLocal(mem, ps[i])
  {
    forall i | 0 <= i < |ps| ensures TotLocal(mem, ps[i]) {
      NextOnList(mem, p, ps, i);
      assert TotAt(mem, ps, i) && (i + 1 < |ps| ==> TotAt(mem, ps, i + 1));
      assert SumLen(mem, ps[i..]) == mem[ps[i]].len + SumLen(mem, ps[i + 1..])
             by { assert ps[i..][1..] == ps[i + 1..]; }
      ModSum(mem[ps[i]].len, SumLen(mem, ps[i + 1..]));
      assert i + 1 == |ps| ==> SumLen(mem, ps[i + 1..]) == 0;
    }
  }

  /** The link of a buffer on a list is the next on the list. */
  lemma NextOnList(mem: Memory, p: int, ps: seq<int>, i: nat)
    requires IsList(mem, p, ps) && i < |ps|
    ensures ps[i] in mem && mem[ps[i]].next == if i + 1 < |ps| then ps[i + 1] else NULL
  {
    ListFrom(mem, p, ps, i);
    assert ps[i..][1..] == ps[i + 1..];
  }

  lemma ModSum(a: nat, b: nat)
    ensures (a + b % U16) % U16 == (a + b) % U16
  {
  }
}
