/**
 * Total lengths over runs: as long as no chain is changed into whose middle another buffer links, the documented
 * relation of the total lengths holds for every buffer in use.
 */
module PbufTotals {
  import opened Pbufs
  import opened PbufChains
  import opened PbufPool
  import opened PbufRuns

  /** The relation of pbuf.h for every buffer in use, and its length in 16 bits. */
  ghost predicate Totals(w: World) {
    forall x :: x in w.live ==> TotLocal(w.mem, x) && w.mem[x].len < Pbufs.U16
  }

  /** No buffer off the chain from p links to one on it. */
  ghost predicate Alone(w: World, p: int) {
    var ps := Path(w.mem, p);
    forall q :: q in w.live && q !in ps && q in w.mem ==> w.mem[q].next !in ps
  }

  /** The calls that change total lengths are made for such chains only. */
  ghost predicate Tidy(w: World, op: Op) {
    match op
    case Concatenate(h, _) => Alone(w, h)
    case ChainUp(h, _) => Alone(w, h)
    case Separate(p) => Alone(w, p)
    case Resize(p, _) => Alone(w, p)
    case _ => true
  }

  ghost predicate AllTidy(w: World, ops: seq<Op>)
    requires AllAllowed(w, ops)
    decreases |ops|
  {
    ops == [] || (Tidy(w, ops[0]) && AllTidy(Next(w, ops[0]), ops[1..]))
  }

  // ---------------------------------------------------------------------------------------------
  // The relation means right sums

  lemma {:induction false} SumsFrom(mem: Memory, p: int, ps: seq<int>, i: nat)
    requires IsList(mem, p, ps) && NULL !in mem && i < |ps|
    requires forall j :: 0 <= j < |ps| ==> TotLocal(mem, ps[j])
    ensures TotAt(mem, ps, i)
    decreases |ps| - i
  {
    NextOnList(mem, p, ps, i);
    assert TotLocal(mem, ps[i]);
    assert ps[i..][1..] == ps[i + 1..];
    if i + 1 < |ps| {
      SumsFrom(mem, p, ps, i + 1);
      ModSum(mem[ps[i]].len, SumLen(mem, ps[i + 1..]));
    }
  }

  /** So what pbuf_realloc asks of a chain is there. */
  lemma TotalsAreRight(w: World, p: int)
    requires Inv(w) && Totals(w) && p in w.live
    ensures TotOk(w.mem, Path(w.mem, p))
  {
    hide Path;
    PathOf(w, p);
    var ps := Path(w.mem, p);
    hide TotLocal;
    forall i | 0 <= i < |ps| ensures TotLocal(w.mem, ps[i]) {
      ChainLive(w, p, ps, i);
    }
    forall i | 0 <= i < |ps| ensures TotAt(w.mem, ps, i) {
      SumsFrom(w.mem, p, ps, i);
    }
  }

  // ---------------------------------------------------------------------------------------------
  // What keeps it

  predicate SameTotal(mem: Memory, mem': Memory, x: int) {
    && x in mem && x in mem' && mem'[x].len == mem[x].len && mem'[x].totLen == mem[x].totLen
    && mem'[x].next == mem[x].next
  }

  /** The changed buffers cs are right, the others are as they were and do not link to changed ones. */
  lemma Carried(w: World, w': World, cs: seq<int>)
    requires Inv(w) && Inv(w') && Totals(w)
    requires forall x :: x in w'.live && x in cs ==> TotLocal(w'.mem, x) && w'.mem[x].len < Pbufs.U16
    requires forall x :: x in w'.live && x !in cs ==> x in w.live && SameTotal(w.mem, w'.mem, x) && w.mem[x].next !in cs
    ensures Totals(w')
  {
    hide CountsOk;
    forall x | x in w'.live && x !in cs ensures TotLocal(w'.mem, x) && w'.mem[x].len < Pbufs.U16 {
      assert SameTotal(w.mem, w'.mem, x) && TotLocal(w.mem, x);
      var n := w.mem[x].next;
      assert n != NULL ==> n in w'.live && n !in cs && SameTotal(w.mem, w'.mem, n);
    }
  }

  lemma OnlyLowered(b: Buf, b': Buf, lowered: bool)
    requires Lowered(b, b', lowered)
    ensures b'.len == b.len && b'.totLen == b.totLen && b'.next == b.next
  {
  }

  lemma FreeTotals(w: World, ps: seq<int>)
    requires Inv(w) && Totals(w) && ps != [] && ps[0] in w.outside && IsList(w.mem, ps[0], ps)
    ensures Totals(Pbufs.Free(w, ps))
  {
    hide Inv;
    hide Totals;
    hide Pbufs.Free;
    hide IsList;
    hide Lowered;
    FreeKeeps(w, ps);
    var w', n := Pbufs.Free(w, ps), Count(w.mem, ps);
    hide Count;
    forall x | x in w'.live ensures x in w.live && SameTotal(w.mem, w'.mem, x) {
      FreeExactly(w, ps, x);
      OnlyLowered(w.mem[x], w'.mem[x], n < |ps| && x == ps[n]);
    }
    Carried(w, w', []);
  }

  lemma ModMore(tot: nat, len: nat, rest: nat, n: nat)
    requires tot == (len + rest) % Pbufs.U16
    ensures (tot + n) % Pbufs.U16 == (len + (rest + n) % Pbufs.U16) % Pbufs.U16
  {
    var k, j := (len + rest) / Pbufs.U16, (rest + n) / Pbufs.U16;
    ModShift(len + rest + n, -k);
    ModShift(len + rest + n, -j);
    assert tot + n == len + rest + n + Pbufs.U16 * (-k);
    assert len + (rest + n) % Pbufs.U16 == len + rest + n + Pbufs.U16 * (-j);
  }

  /** A buffer of the joined chain. */
  lemma CatBuffer(w: World, hs: seq<int>, t: int, i: nat)
    requires i < |hs| && hs[|hs| - 1] in w.mem && t in w.mem && hs[i] in w.mem
    requires i + 1 < |hs| ==> hs[i] != hs[|hs| - 1]
    ensures hs[i] in PbufChains.Cat(w, hs, t).mem
    ensures var b, b' := w.mem[hs[i]], PbufChains.Cat(w, hs, t).mem[hs[i]];
            && b'.len == b.len && b'.totLen == (b.totLen + w.mem[t].totLen) % Pbufs.U16
            && b'.next == if i + 1 < |hs| then b.next else t
  {
  }

  lemma CatOther(w: World, hs: seq<int>, t: int, x: int)
    requires hs != [] && hs[|hs| - 1] in w.mem && t in w.mem && x in w.mem && x !in hs
    ensures x in PbufChains.Cat(w, hs, t).mem && PbufChains.Cat(w, hs, t).mem[x] == w.mem[x]
  {
  }

  /** A buffer of the first chain, before pbuf_cat. */
  lemma CatPlace(w: World, h: int, hs: seq<int>, t: int, ts: seq<int>, i: nat)
    requires Inv(w) && Totals(w) && h in w.live && IsList(w.mem, h, hs) && t in w.live && IsList(w.mem, t, ts)
    requires i < |hs| && hs[|hs| - 1] !in ts
    ensures t in w.mem && t !in hs && hs[i] in w.live && hs[i] in w.mem && NULL !in w.mem
    ensures w.mem[hs[i]].next == if i + 1 < |hs| then hs[i + 1] else NULL
    ensures i + 1 < |hs| ==> hs[i] != hs[|hs| - 1]
    ensures TotLocal(w.mem, hs[i])
  {
    hide TotLocal;
    LiveOnChain(w, h, hs, i);
    Positive(w, t);
    NoNull(w);
    hide Inv;
    NextOnList(w.mem, h, hs, i);
    CatDisjoint(w.mem, h, hs, t, ts);
    assert ts != [] && ts[0] == t;
    if i + 1 < |hs| {
      ListDistinct(w.mem, h, hs, i, |hs| - 1);
    }
  }

  /** The buffer at place i of the first chain after pbuf_cat. */
  lemma CatLocal(w: World, h: int, hs: seq<int>, t: int, ts: seq<int>, i: nat)
    requires Inv(w) && Totals(w) && h in w.live && IsList(w.mem, h, hs) && t in w.live && IsList(w.mem, t, ts)
    requires i < |hs| && hs[|hs| - 1] !in ts
    ensures hs[|hs| - 1] in w.mem && t in w.mem
    ensures TotLocal(PbufChains.Cat(w, hs, t).mem, hs[i])
    ensures hs[i] in w.live && hs[i] in w.mem && PbufChains.Cat(w, hs, t).mem[hs[i]].len == w.mem[hs[i]].len
  {
    hide Inv;
    hide Totals;
    hide IsList;
    hide PbufChains.Cat;
    CatPlace(w, h, hs, t, ts, i);
    CatPlace(w, h, hs, t, ts, |hs| - 1);
    CatBuffer(w, hs, t, i);
    var n := w.mem[t].totLen;
    if i + 1 < |hs| {
      CatPlace(w, h, hs, t, ts, i + 1);
      CatBuffer(w, hs, t, i + 1);
      ModMore(w.mem[hs[i]].totLen, w.mem[hs[i]].len, w.mem[hs[i + 1]].totLen, n);
    } else {
      CatOther(w, hs, t, t);
      ModSum(n, w.mem[hs[i]].len);
    }
  }

  lemma NoNull(w: World)
    requires Inv(w)
    ensures NULL !in w.mem
  {
  }

  lemma CatTotals(w: World, h: int, t: int)
    requires Inv(w) && Totals(w) && Joinable(w, h, t) && Alone(w, h)
    ensures Totals(PbufChains.Cat(w, Path(w.mem, h), t))
  {
    var hs, ts := Path(w.mem, h), Path(w.mem, t);
    var w' := PbufChains.Cat(w, hs, t);
    OutsideLive(w, t);
    PathOf(w, h);
    PathOf(w, t);
    JoinKeeps(w, h, t);
    LiveInMemory(w);
    assert w'.live == w.live;
    hide Path;
    hide Inv;
    hide TotLocal;
    hide IsList;
    forall x | x in w'.live && x in hs ensures TotLocal(w'.mem, x) && w'.mem[x].len < Pbufs.U16 {
      var i :| 0 <= i < |hs| && hs[i] == x;
      CatLocal(w, h, hs, t, ts, i);
      assert TotLocal(w.mem, x) && w.mem[x].len < Pbufs.U16;
    }
    forall x | x in w'.live && x !in hs ensures SameTotal(w.mem, w'.mem, x) {
      CatOther(w, hs, t, x);
    }
    hide PbufChains.Cat;
    Carried(w, w', hs);
  }

  lemma RefTotals(w: World, p: int)
    requires Totals(w) && p in w.mem
    ensures Totals(AddRef(w, p))
  {
  }

  // ---------------------------------------------------------------------------------------------
  // Separating and shrinking

  lemma RetotalSame(len: nat, tot: nat, rest: nat)
    requires tot == (len + rest) % Pbufs.U16 && rest < Pbufs.U16
    ensures (tot - len) % Pbufs.U16 == rest
  {
    TakeAway(len, rest);
  }

  /** The total length that pbuf_dechain writes is the one that was there. */
  lemma SecondTotal(w: World, p: int, q: int)
    requires Totals(w) && p in w.live && q in w.live && p in w.mem && w.mem[p].next == q
    ensures p in w.mem && q in w.mem && (w.mem[p].totLen - w.mem[p].len) % Pbufs.U16 == w.mem[q].totLen
  {
    assert TotLocal(w.mem, p) && TotLocal(w.mem, q);
    RetotalSame(w.mem[p].len, w.mem[p].totLen, w.mem[q].totLen);
  }

  /** A buffer other than the first before its rest is freed. */
  lemma CutTotal(w: World, p: int, ps: seq<int>, x: int)
    requires Inv(w) && Totals(w) && p in w.live && IsList(w.mem, p, ps) && |ps| > 1 && x in w.live && x != p
    ensures p in w.mem && ps[1] in w.mem && SameTotal(w.mem, Unlink(Retotal(w, p, ps[1]), p).mem, x)
  {
    hide Totals;
    hide IsList;
    FirstOnChain(w, p, ps);
    LiveOnChain(w, p, ps, 1);
    Positive(w, x);
    hide Inv;
    SecondTotal(w, p, ps[1]);
    SeparatedAt(w, p, ps[1], x);
  }

  /** A buffer other than the first after pbuf_dechain. */
  lemma SeparatedTotal(w: World, p: int, ps: seq<int>, x: int)
    requires Inv(w) && Totals(w) && p in w.live && IsList(w.mem, p, ps) && |ps| > 1
    requires x in Unchain(w, ps).live && x != p
    ensures x in w.live && SameTotal(w.mem, Unchain(w, ps).mem, x)
  {
    hide Inv;
    hide Totals;
    hide IsList;
    hide Lowered;
    hide Unlink;
    hide Pbufs.Free;
    Separated(w, p, ps);
    var cut, ts := Unlink(Retotal(w, p, ps[1]), p), ps[1..];
    FreeExactly(cut, ts, x);
    var n := Count(cut.mem, ts);
    hide Count;
    CutTotal(w, p, ps, x);
    OnlyLowered(cut.mem[x], Unchain(w, ps).mem[x], n < |ts| && x == ts[n]);
  }

  lemma SeparateTotals(w: World, p: int)
    requires Inv(w) && Totals(w) && p in w.live && Alone(w, p)
    ensures Totals(Unchain(w, Path(w.mem, p)))
  {
    hide Inv;
    hide Unchain;
    hide IsList;
    var ps := Path(w.mem, p);
    PathOf(w, p);
    hide Path;
    if |ps| <= 1 {
      UnchainNothing(w, ps);
    } else {
      var w' := Unchain(w, ps);
      UnchainKeeps(w, p, ps);
      UnchainFacts(w, p, ps);
      FirstSeparated(w, p, ps);
      NoNull(w');
      forall x | x in w'.live && x != p
        ensures x in w.live && SameTotal(w.mem, w'.mem, x) && w.mem[x].next != p
      {
        SeparatedTotal(w, p, ps, x);
        NotLinkedTo(w, p, ps, x);
      }
      assert TotLocal(w.mem, p) && w.mem[p].len < Pbufs.U16;
      Carried(w, w', [p]);
    }
  }

  lemma UnchainNothing(w: World, ps: seq<int>)
    requires |ps| <= 1
    ensures Unchain(w, ps) == w
  {
  }

  lemma FirstSeparated(w: World, p: int, ps: seq<int>)
    requires Inv(w) && p in w.live && IsList(w.mem, p, ps) && |ps| > 1
    ensures var w' := Unchain(w, ps);
            p in w.mem && p in w'.mem && w'.mem[p].next == NULL && w'.mem[p].len == w.mem[p].len
  {
    Separated(w, p, ps);
    var cut := Unlink(Retotal(w, p, ps[1]), p);
    HeadNotInTail(w.mem, p, ps);
    DechainTail(cut, p, ps);
    hide Pbufs.Free;
    hide Inv;
  }

  /** To the first buffer of a chain that is alone nothing links. */
  lemma NotLinkedTo(w: World, p: int, ps: seq<int>, x: int)
    requires Inv(w) && p in w.live && IsList(w.mem, p, ps) && x in w.live && x in w.mem
    requires forall q :: q in w.live && q !in ps && q in w.mem ==> w.mem[q].next !in ps
    ensures w.mem[x].next != p
  {
    FirstOnChain(w, p, ps);
    if x in ps {
      var i :| 0 <= i < |ps| && ps[i] == x;
      NextOnList(w.mem, p, ps, i);
      if i + 1 < |ps| {
        ListDistinct(w.mem, p, ps, 0, i + 1);
      }
    }
  }

  lemma {:induction false} LenBelow(mem: Memory, ps: seq<int>, i: nat)
    requires i < |ps| && ps[i] in mem
    ensures mem[ps[i]].len <= SumLen(mem, ps)
    decreases i
  {
    if i > 0 {
      LenBelow(mem, ps[1..], i - 1);
    }
  }

  /** A buffer behind the new end, or off the chain, after pbuf_realloc. */
  lemma ShrunkOther(w: World, p: int, ps: seq<int>, newLen: nat, k: nat, x: int)
    requires Inv(w) && p in w.live && IsList(w.mem, p, ps) && k < |ps|
    requires ps[0] in w.mem && ps[k] in w.mem && SumLen(w.mem, ps[..k]) <= newLen
    requires x in Shrink(w, ps, newLen, k).live && x !in ps[..k + 1]
    ensures x in w.live && SameTotal(w.mem, Shrink(w, ps, newLen, k).mem, x)
  {
    hide Inv;
    hide Trim;
    hide SumLen;
    hide Lowered;
    var w1 := w.(mem := Trim(w.mem, ps, newLen, k));
    TrimLinks(w, ps, newLen, k);
    ListFrame(w.mem, w1.mem, p, ps);
    hide IsList;
    CutChain(w1, p, ps, k);
    var cut := Unlink(w1, ps[k]);
    LiveInMemory(w);
    if k + 1 < |ps| {
      FreeExactly(cut, ps[k + 1..], x);
      var n := Count(cut.mem, ps[k + 1..]);
      OnlyLowered(cut.mem[x], Shrink(w, ps, newLen, k).mem[x], n < |ps[k + 1..]| && x == ps[k + 1..][n]);
    }
    hide Pbufs.Free;
    hide Count;
    NotInFront(ps, k, x);
    TrimAt(w.mem, ps, newLen, k, x);
  }

  lemma NotInFront(ps: seq<int>, k: nat, x: int)
    requires k < |ps| && x !in ps[..k + 1]
    ensures x != ps[k] && x !in ps[..k]
  {
    assert ps[..k + 1] == ps[..k] + [ps[k]];
  }

  lemma InFront(ps: seq<int>, k: nat, i: nat)
    requires k < |ps| && i < |ps|
    ensures i <= k ==> ps[i] in ps[..k + 1]
  {
    assert i <= k ==> ps[..k + 1][i] == ps[i];
  }

  /** Nothing that stays links to the front of the chain. */
  lemma NotToFront(w: World, p: int, ps: seq<int>, k: nat, x: int)
    requires Inv(w) && p in w.live && IsList(w.mem, p, ps) && k < |ps| && x in w.live && x in w.mem && x !in ps[..k + 1]
    requires forall q :: q in w.live && q !in ps && q in w.mem ==> w.mem[q].next !in ps
    ensures w.mem[x].next !in ps[..k + 1]
  {
    if x in ps {
      var i :| 0 <= i < |ps| && ps[i] == x;
      InFront(ps, k, i);
      NextOnList(w.mem, p, ps, i);
      NoNull(w);
      forall j | 0 <= j <= k ensures ps[j] != w.mem[x].next {
        LiveOnChain(w, p, ps, j);
        if i + 1 < |ps| {
          ListDistinct(w.mem, p, ps, j, i + 1);
        }
      }
    } else {
      assert forall j :: 0 <= j <= k ==> ps[..k + 1][j] == ps[j] && ps[j] in ps;
    }
  }

  lemma ResizeTotals(w: World, p: int, newLen: nat)
    requires Inv(w) && Totals(w) && p in w.live && Alone(w, p) && newLen < Pbufs.U16
    ensures Totals(Resized(w, Path(w.mem, p), newLen))
  {
    var ps := Path(w.mem, p);
    PathOf(w, p);
    TotalsAreRight(w, p);
    hide Path;
    if newLen < w.mem[p].totLen {
      ShortEnough(w.mem, p, ps, newLen);
      var k := Stop(w.mem, ps, newLen);
      ShrinkChain(w, p, ps, newLen, k);
      ShrinkKeeps(w, p, ps, newLen, k);
      hide Stop;
      hide SumLen;
      var w', front := Shrink(w, ps, newLen, k), ps[..k + 1];
      assert Resized(w, ps, newLen) == w';
      NoNull(w');
      TotIsLocal(w'.mem, p, front);
      LiveInMemory(w');
      LiveInMemory(w);
      forall x | x in w'.live && x in front ensures TotLocal(w'.mem, x) && w'.mem[x].len < Pbufs.U16 {
        var i :| 0 <= i < |front| && front[i] == x;
        LenBelow(w'.mem, front, i);
      }
      forall x | x in w'.live && x !in front
        ensures x in w.live && SameTotal(w.mem, w'.mem, x) && w.mem[x].next !in front
      {
        ShrunkOther(w, p, ps, newLen, k, x);
        NotToFront(w, p, ps, k, x);
      }
      hide Inv;
      hide Shrink;
      hide TotLocal;
      Carried(w, w', front);
    }
  }

  // ---------------------------------------------------------------------------------------------
  // New buffers

  lemma NewTotals(w: World, payload: nat, length: nat)
    requires Inv(w) && Totals(w) && payload < POOL_BUFSIZE && length < Pbufs.U16
    ensures Totals(NewChain(w, payload, length))
  {
    var ps := NewChainKeeps(w, payload, length);
    var w' := NewChain(w, payload, length);
    hide NewChain;
    if |w.free| >= Needed(length, payload) {
      AllLocal(w', w.pool, ps);
      NewApart(w, ps, w'.free);
      LiveInMemory(w');
      forall x | x in w'.live && x in ps ensures TotLocal(w'.mem, x) && w'.mem[x].len < Pbufs.U16 {
        var i :| 0 <= i < |ps| && ps[i] == x;
        LenBelow(w'.mem, ps, i);
      }
      forall x | x in w'.live && x !in ps ensures SameTotal(w.mem, w'.mem, x) && w.mem[x].next !in ps {
        assert x in w.live;
        OldLink(w, x);
      }
      hide Inv;
      hide TotLocal;
      Carried(w, w', ps);
    } else {
      forall x | x in w'.live ensures x in w.live && SameTotal(w.mem, w'.mem, x) {
      }
      hide Inv;
      Carried(w, w', []);
    }
  }

  lemma OldLink(w: World, x: int)
    requires Inv(w) && x in w.live
    ensures x in w.mem && (w.mem[x].next == NULL || w.mem[x].next in w.live)
  {
  }

  /** Buffers from the free list were not in use. */
  lemma NewApart(w: World, ps: seq<int>, rest: seq<int>)
    requires Inv(w) && w.free == ps + rest
    ensures forall x <- ps :: x !in w.live && x != NULL
  {
  }

  lemma MadeTotals(w: World, kind: Kind, layer: Layer, length: nat, at: int)
    requires Inv(w) && Totals(w) && !kind.Pool? && length < Pbufs.U16 && at !in w.mem && at != NULL
    ensures Totals(Take(w, at, Single(kind, Offset(layer), length)))
  {
    var b := Single(kind, Offset(layer), length);
    SingleFields(kind, Offset(layer), length);
    Apart(w, at);
    TakeNewKeeps(w, at, b);
    LiveInMemory(w);
    NoNull(w);
    var w' := Take(w, at, b);
    forall x | x in w'.live && x != at ensures x in w.live && SameTotal(w.mem, w'.mem, x) && w.mem[x].next != at {
      OldLink(w, x);
    }
    assert b.len == length && b.totLen == length;
    assert TotLocal(w'.mem, at);
    hide Inv;
    Carried(w, w', [at]);
  }

  // ---------------------------------------------------------------------------------------------
  // Runs

  lemma NextTotals(w: World, op: Op)
    requires Inv(w) && Totals(w) && Allowed(w, op) && Tidy(w, op)
    ensures Totals(Next(w, op))
  {
    hide Inv;
    hide Totals;
    hide Path;
    hide Alone;
    hide PbufChains.Cat;
    hide Pbufs.Free;
    hide Unchain;
    hide Resized;
    hide NewChain;
    hide Single;
    match op
    case AddReference(p) => RefTotals(w, p);
    case FreeBuffer(p) =>
      OutsideLive(w, p);
      PathOf(w, p);
      FreeTotals(w, Path(w.mem, p));
    case Concatenate(h, t) => CatTotals(w, h, t);
    case ChainUp(h, t) =>
      CatTotals(w, h, t);
      JoinKeeps(w, h, t);
      RefTotals(PbufChains.Cat(w, Path(w.mem, h), t), t);
    case Separate(p) => SeparateTotals(w, p);
    case Resize(p, newLen) => ResizeTotals(w, p, newLen);
    case FromPool(layer, length) => NewTotals(w, Offset(layer), length);
    case FromMemory(kind, layer, length, at) =>
      if at != NULL {
        MadeTotals(w, kind, layer, length, at);
      }
  }

  /** Over every run that changes chains only while no other buffer links into them, the total length of every
      buffer in use is its length and the total length of the next buffer, in 16 bits. */
  lemma {:induction false} RunTotals(w: World, ops: seq<Op>)
    requires Inv(w) && Totals(w) && AllAllowed(w, ops) && AllTidy(w, ops)
    ensures Totals(Run(w, ops))
    decreases |ops|
  {
    hide Inv;
    hide Totals;
    hide Next;
    hide Allowed;
    hide Tidy;
    if ops != [] {
      NextKeeps(w, ops[0]);
      NextTotals(w, ops[0]);
      RunTotals(Next(w, ops[0]), ops[1..]);
    }
  }

  /** In every state of such a run all chains have right total lengths, so that pbuf_realloc may be called. */
  lemma RightInRuns(w: World, ops: seq<Op>, p: int)
    requires Inv(w) && Totals(w) && AllAllowed(w, ops) && AllTidy(w, ops) && p in Run(w, ops).live
    ensures TotOk(Run(w, ops).mem, Path(Run(w, ops).mem, p))
  {
    hide Inv;
    hide Totals;
    hide Run;
    hide AllAllowed;
    hide AllTidy;
    RunKeeps(w, ops);
    RunTotals(w, ops);
    TotalsAreRight(Run(w, ops), p);
  }
}
