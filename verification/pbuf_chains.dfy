/** What shrinking and joining do to chains of packet buffers, their lengths and their contents. */
module PbufChains {
  import opened Bytes
  import opened Pbufs

  /** n is added to the total lengths on ps, in 16 bits. */
  function AddTot(mem: Memory, ps: seq<int>, n: nat): (r: Memory)
    ensures r.Keys == mem.Keys
  {
    map x | x in mem :: if x in ps then mem[x].(totLen := (mem[x].totLen + n) % U16) else mem[x]
  }

  lemma AddTotAt(mem: Memory, ps: seq<int>, n: nat, x: int)
    requires x in mem
    ensures AddTot(mem, ps, n)[x] == if x in ps then mem[x].(totLen := (mem[x].totLen + n) % U16) else mem[x]
  {
  }

  /** One more buffer of the chain. */
  lemma AddTotStep(mem: Memory, p: int, ps: seq<int>, i: nat, n: nat)
    requires IsList(mem, p, ps) && i < |ps|
    ensures ps[i] in mem && AddTot(mem, ps[..i], n)[ps[i]] == mem[ps[i]]
    ensures AddTot(mem, ps[..i + 1], n) ==
            AddTot(mem, ps[..i], n)[ps[i] := mem[ps[i]].(totLen := (mem[ps[i]].totLen + n) % U16)]
  {
    hide AddTot;
    NotBefore(mem, p, ps, i);
    hide IsList;
    AddTotMore(mem, ps[..i], ps[i], n);
    assert ps[..i + 1] == ps[..i] + [ps[i]];
  }

  lemma NotBefore(mem: Memory, p: int, ps: seq<int>, i: nat)
    requires IsList(mem, p, ps) && i < |ps|
    ensures ps[i] in mem && ps[i] !in ps[..i]
  {
    ListFrom(mem, p, ps, i);
    forall j | 0 <= j < i ensures ps[j] != ps[i] {
      ListDistinct(mem, p, ps, j, i);
    }
  }

  lemma AddTotMore(mem: Memory, ps: seq<int>, q: int, n: nat)
    requires q in mem && q !in ps
    ensures AddTot(mem, ps, n)[q] == mem[q]
    ensures AddTot(mem, ps + [q], n) == AddTot(mem, ps, n)[q := mem[q].(totLen := (mem[q].totLen + n) % U16)]
  {
    hide AddTot;
    var a, b := AddTot(mem, ps + [q], n), AddTot(mem, ps, n);
    AddTotAt(mem, ps, n, q);
    forall x | x in mem ensures a[x] == if x == q then mem[q].(totLen := (mem[q].totLen + n) % U16) else b[x] {
      AddTotAt(mem, ps, n, x);
      AddTotAt(mem, ps + [q], n, x);
    }
  }

  lemma AddTotNothing(mem: Memory, n: nat)
    ensures AddTot(mem, [], n) == mem
  {
  }

  /** It changes nothing else. */
  lemma AddTotWorld(w: World, ps: seq<int>, n: nat)
    requires Inv(w)
    ensures Inv(w.(mem := AddTot(w.mem, ps, n)))
  {
    SameLinks(w, w.(mem := AddTot(w.mem, ps, n)));
    hide Linkers;
    hide Ends;
  }

  // ---------------------------------------------------------------------------------------------
  // Joining

  /** pbuf_cat. */
  function Cat(w: World, hs: seq<int>, t: int): World
    requires hs != [] && hs[|hs| - 1] in w.mem && t in w.mem
  {
    Link(w.(mem := AddTot(w.mem, hs, w.mem[t].totLen)), hs[|hs| - 1], t)
  }

  lemma SameListTot(mem: Memory, p: int, ps: seq<int>, hs: seq<int>, n: nat)
    requires IsList(mem, p, ps)
    ensures IsList(AddTot(mem, hs, n), p, ps)
  {
    ListFrame(mem, AddTot(mem, hs, n), p, ps);
  }

  /** The invariant is kept, if the second chain does not lead back to the end of the first. */
  lemma CatKeeps(w: World, h: int, hs: seq<int>, t: int, ts: seq<int>)
    requires Inv(w) && h in w.live && IsList(w.mem, h, hs) && t in w.outside && IsList(w.mem, t, ts)
    requires hs != [] && hs[|hs| - 1] !in ts
    ensures hs[|hs| - 1] in w.mem && t in w.mem && Inv(Cat(w, hs, t))
    ensures IsList(Cat(w, hs, t).mem, h, hs + ts)
  {
    hide Inv;
    Referenced(w, t);
    ListFrom(w.mem, h, hs, |hs| - 1);
    var n := w.mem[t].totLen;
    var w1 := w.(mem := AddTot(w.mem, hs, n));
    AddTotWorld(w, hs, n);
    SameListTot(w.mem, h, hs, hs, n);
    SameListTot(w.mem, t, ts, hs, n);
    LinkKeeps(w1, h, hs, t, ts);
    ListJoin(w1.mem, h, hs, t, ts);
  }

  /** Two chains that meet end in the same buffer. */
  lemma ChainsMeet(mem: Memory, h: int, hs: seq<int>, t: int, ts: seq<int>, i: nat, j: nat)
    requires IsList(mem, h, hs) && IsList(mem, t, ts) && i < |hs| && j < |ts| && hs[i] == ts[j]
    ensures hs[|hs| - 1] in ts
  {
    ListFrom(mem, h, hs, i);
    ListFrom(mem, t, ts, j);
    ListUnique(mem, hs[i], hs[i..], ts[j..]);
    assert hs[|hs| - 1] == hs[i..][|hs| - 1 - i];
  }

  /** No buffer of the first chain is on the second. */
  lemma CatDisjoint(mem: Memory, h: int, hs: seq<int>, t: int, ts: seq<int>)
    requires IsList(mem, h, hs) && IsList(mem, t, ts) && hs != [] && hs[|hs| - 1] !in ts
    ensures forall i, j :: 0 <= i < |hs| && 0 <= j < |ts| ==> hs[i] != ts[j]
  {
    forall i, j | 0 <= i < |hs| && 0 <= j < |ts| ensures hs[i] != ts[j] {
      if hs[i] == ts[j] {
        ChainsMeet(mem, h, hs, t, ts, i, j);
      }
    }
  }

  /** What joining does to the buffers of the two chains. */
  ghost predicate Joined(mem: Memory, mem': Memory, hs: seq<int>, ts: seq<int>, n: nat) {
    && (forall i :: 0 <= i < |hs| ==>
          && hs[i] in mem && hs[i] in mem' && mem'[hs[i]].totLen == (mem[hs[i]].totLen + n) % U16
          && mem'[hs[i]].len == mem[hs[i]].len && Data(mem'[hs[i]]) == Data(mem[hs[i]]))
    && (forall i :: 0 <= i < |ts| ==> ts[i] in mem && ts[i] in mem' && mem'[ts[i]] == mem[ts[i]])
  }

  /** What joining does to one buffer. */
  lemma CatAt(w: World, hs: seq<int>, t: int, x: int)
    requires hs != [] && hs[|hs| - 1] in w.mem && t in w.mem && x in w.mem
    ensures x in Cat(w, hs, t).mem
    ensures var b, b' := w.mem[x], Cat(w, hs, t).mem[x];
            if x in hs
            then b'.totLen == (b.totLen + w.mem[t].totLen) % U16 && b'.len == b.len && Data(b') == Data(b)
            else b' == b
  {
  }

  lemma CatJoins(w: World, h: int, hs: seq<int>, t: int, ts: seq<int>)
    requires IsList(w.mem, h, hs) && IsList(w.mem, t, ts) && hs != [] && hs[|hs| - 1] !in ts && t in w.mem
    ensures hs[|hs| - 1] in w.mem
    ensures Joined(w.mem, Cat(w, hs, t).mem, hs, ts, w.mem[t].totLen)
  {
    hide Data;
    CatDisjoint(w.mem, h, hs, t, ts);
    ListFrom(w.mem, h, hs, |hs| - 1);
    forall i | 0 <= i < |hs| ensures hs[i] in w.mem && hs[i] in Cat(w, hs, t).mem {
      ListFrom(w.mem, h, hs, i);
      CatAt(w, hs, t, hs[i]);
    }
    forall i | 0 <= i < |ts| ensures ts[i] in w.mem {
      ListFrom(w.mem, t, ts, i);
      CatAt(w, hs, t, ts[i]);
    }
    hide IsList;
    hide Cat;
    forall i | 0 <= i < |hs| ensures Cat(w, hs, t).mem[hs[i]].len == w.mem[hs[i]].len {
      CatAt(w, hs, t, hs[i]);
    }
    forall i | 0 <= i < |hs| ensures Data(Cat(w, hs, t).mem[hs[i]]) == Data(w.mem[hs[i]]) {
      CatAt(w, hs, t, hs[i]);
    }
    forall i | 0 <= i < |hs|
      ensures Cat(w, hs, t).mem[hs[i]].totLen == (w.mem[hs[i]].totLen + w.mem[t].totLen) % U16
    {
      CatAt(w, hs, t, hs[i]);
    }
    forall i | 0 <= i < |ts| ensures ts[i] in Cat(w, hs, t).mem && Cat(w, hs, t).mem[ts[i]] == w.mem[ts[i]] {
      CatAt(w, hs, t, ts[i]);
    }
  }

  lemma JoinedLengths(mem: Memory, mem': Memory, hs: seq<int>, ts: seq<int>, n: nat)
    requires Joined(mem, mem', hs, ts, n)
    ensures SumLen(mem', hs + ts) == SumLen(mem, hs) + SumLen(mem, ts)
    ensures Contents(mem', hs + ts) == Contents(mem, hs) + Contents(mem, ts)
  {
    SumLenConcat(mem', hs, ts);
    ContentsConcat(mem', hs, ts);
    SumLenFrame(mem, mem', hs);
    SumLenFrame(mem, mem', ts);
    ContentsFrame(mem, mem', hs);
    ContentsFrame(mem, mem', ts);
  }

  lemma JoinedSuffix(mem: Memory, mem': Memory, hs: seq<int>, ts: seq<int>, n: nat, i: nat)
    requires Joined(mem, mem', hs, ts, n) && i <= |hs|
    ensures Joined(mem, mem', hs[i..], ts, n)
  {
  }

  lemma JoinedAt(mem: Memory, mem': Memory, hs: seq<int>, ts: seq<int>, n: nat, i: nat)
    requires Joined(mem, mem', hs, ts, n) && TotOk(mem, hs) && i < |hs|
    ensures hs[i] in mem && hs[i] in mem' && mem'[hs[i]].totLen == (mem[hs[i]].totLen + n) % U16
    ensures mem[hs[i]].totLen == SumLen(mem, hs[i..]) % U16
  {
    hide SumLen;
    assert TotAt(mem, hs, i);
  }

  lemma TotSum(x: nat, t: nat, n: nat, a: nat, b: nat, sum: nat)
    requires x == (t + n) % U16 && t == a % U16 && n == b % U16 && sum == a + b
    ensures x == sum % U16
  {
    ModAdd(a, b);
  }

  lemma JoinedTotFront(mem: Memory, mem': Memory, hs: seq<int>, ts: seq<int>, n: nat, i: nat)
    requires Joined(mem, mem', hs, ts, n) && TotOk(mem, hs) && n == SumLen(mem, ts) % U16 && i < |hs|
    ensures hs[i] in mem' && mem'[hs[i]].totLen == SumLen(mem', hs[i..] + ts) % U16
  {
    hide Joined;
    hide TotOk;
    hide SumLen;
    JoinedAt(mem, mem', hs, ts, n, i);
    JoinedSuffix(mem, mem', hs, ts, n, i);
    JoinedLengths(mem, mem', hs[i..], ts, n);
    TotSum(mem'[hs[i]].totLen, mem[hs[i]].totLen, n, SumLen(mem, hs[i..]), SumLen(mem, ts), SumLen(mem', hs[i..] + ts));
  }

  lemma JoinedTotBack(mem: Memory, mem': Memory, hs: seq<int>, ts: seq<int>, n: nat, i: nat)
    requires Joined(mem, mem', hs, ts, n) && TotOk(mem, ts) && i < |ts|
    ensures TotAt(mem', ts, i)
  {
    assert TotAt(mem, ts, i);
    SumLenFrame(mem, mem', ts[i..]);
  }

  lemma JoinedTotAt(mem: Memory, mem': Memory, hs: seq<int>, ts: seq<int>, n: nat, i: nat)
    requires Joined(mem, mem', hs, ts, n) && TotOk(mem, hs) && TotOk(mem, ts) && n == SumLen(mem, ts) % U16
    requires i < |hs + ts|
    ensures TotAt(mem', hs + ts, i)
  {
    hide Joined;
    hide TotOk;
    hide SumLen;
    if i < |hs| {
      assert (hs + ts)[i..] == hs[i..] + ts;
      JoinedTotFront(mem, mem', hs, ts, n, i);
    } else {
      assert (hs + ts)[i..] == ts[i - |hs|..];
      JoinedTotBack(mem, mem', hs, ts, n, i - |hs|);
    }
  }

  lemma JoinedTot(mem: Memory, mem': Memory, hs: seq<int>, ts: seq<int>, n: nat)
    requires Joined(mem, mem', hs, ts, n) && TotOk(mem, hs) && TotOk(mem, ts) && n == SumLen(mem, ts) % U16
    ensures TotOk(mem', hs + ts)
  {
    hide Joined;
    forall i | 0 <= i < |hs + ts| ensures TotAt(mem', hs + ts, i) {
      JoinedTotAt(mem, mem', hs, ts, n, i);
    }
  }

  /** The joined chain has right total lengths, and the contents of both one after the other. */
  lemma CatChain(w: World, h: int, hs: seq<int>, t: int, ts: seq<int>)
    requires IsList(w.mem, h, hs) && IsList(w.mem, t, ts) && hs != [] && hs[|hs| - 1] !in ts && t in w.mem && t != NULL
    requires TotOk(w.mem, hs) && TotOk(w.mem, ts)
    ensures hs[|hs| - 1] in w.mem
    ensures TotOk(Cat(w, hs, t).mem, hs + ts)
    ensures SumLen(Cat(w, hs, t).mem, hs + ts) == SumLen(w.mem, hs) + SumLen(w.mem, ts)
    ensures Contents(Cat(w, hs, t).mem, hs + ts) == Contents(w.mem, hs) + Contents(w.mem, ts)
  {
    CatJoins(w, h, hs, t, ts);
    assert ts != [] && ts[0] == t && ts[0..] == ts && TotAt(w.mem, ts, 0);
    hide Cat;
    hide Joined;
    hide IsList;
    JoinedLengths(w.mem, Cat(w, hs, t).mem, hs, ts, w.mem[t].totLen);
    JoinedTot(w.mem, Cat(w, hs, t).mem, hs, ts, w.mem[t].totLen);
  }

  lemma ModAdd(a: nat, b: nat)
    ensures (a % U16 + b % U16) % U16 == (a + b) % U16
  {
  }

  // ---------------------------------------------------------------------------------------------
  // Shrinking

  /** How many buffers pbuf_realloc steps over. */
  function Stop(mem: Memory, ps: seq<int>, left: nat): (k: nat)
    ensures k <= |ps|
    decreases |ps|
  {
    if ps != [] && ps[0] in mem && left > mem[ps[0]].len then 1 + Stop(mem, ps[1..], left - mem[ps[0]].len) else 0
  }

  /** It stops inside of the chain, where the length that is left fits. */
  lemma {:induction false} StopFits(mem: Memory, p: int, ps: seq<int>, left: nat)
    requires IsList(mem, p, ps) && ps != [] && left <= SumLen(mem, ps)
    ensures var k := Stop(mem, ps, left);
            k < |ps| && ps[k] in mem && SumLen(mem, ps[..k]) <= left <= SumLen(mem, ps[..k]) + mem[ps[k]].len
    decreases |ps|
  {
    var n := mem[p].len;
    if left > n {
      StopFits(mem, mem[p].next, ps[1..], left - n);
      var k := Stop(mem, ps[1..], left - n);
      assert ps[..k + 1][1..] == ps[1..][..k];
    }
  }

  /** The last buffer is cut to n bytes; a buffer in RAM of its own gives the memory behind back. */
  function CutBuf(b: Buf, n: nat): Buf {
    b.(len := n, totLen := n,
       bytes := if b.kind.Ram? && n != b.len && b.payload + n <= |b.bytes| then b.bytes[..b.payload + n] else b.bytes)
  }

  /** The change of the total lengths, in 16 bits. */
  function Grow(mem: Memory, p: int, newLen: nat): nat
    requires p in mem
  {
    (newLen - mem[p].totLen) % U16
  }

  /** The lengths after pbuf_realloc, for a chain that is stepped over up to place k. */
  function Trim(mem: Memory, ps: seq<int>, newLen: nat, k: nat): Memory
    requires k < |ps| && ps[0] in mem && ps[k] in mem && SumLen(mem, ps[..k]) <= newLen
  {
    AddTot(mem, ps[..k], Grow(mem, ps[0], newLen))[ps[k] := CutBuf(mem[ps[k]], newLen - SumLen(mem, ps[..k]))]
  }

  lemma TrimAt(mem: Memory, ps: seq<int>, newLen: nat, k: nat, x: int)
    requires k < |ps| && ps[0] in mem && ps[k] in mem && SumLen(mem, ps[..k]) <= newLen && x in mem
    ensures x in Trim(mem, ps, newLen, k)
    ensures Trim(mem, ps, newLen, k)[x] ==
            if x == ps[k] then CutBuf(mem[x], newLen - SumLen(mem, ps[..k]))
            else if x in ps[..k] then mem[x].(totLen := (mem[x].totLen + Grow(mem, ps[0], newLen)) % U16)
            else mem[x]
  {
    hide SumLen;
    hide CutBuf;
    hide Grow;
    hide AddTot;
    AddTotAt(mem, ps[..k], Grow(mem, ps[0], newLen), x);
  }

  lemma GrowSum(tot: nat, tot0: nat, front: nat, back: nat, newLen: nat)
    requires tot == back % U16 && tot0 == (front + back) % U16 && front <= newLen
    ensures (tot + (newLen - tot0) % U16) % U16 == (newLen - front) % U16
  {
    var a, b, c := back / U16, (front + back) / U16, (newLen - tot0) / U16;
    assert tot + (newLen - tot0) % U16 == newLen - front + U16 * (b - a - c);
    ModShift(newLen - front, b - a - c);
  }

  lemma ModShift(x: int, k: int)
    ensures (x + U16 * k) % U16 == x % U16
  {
  }

  /** The sum over the first buffers is the new length, from any of them on. */
  lemma TrimSum(mem: Memory, p: int, ps: seq<int>, newLen: nat, k: nat, i: nat)
    requires IsList(mem, p, ps) && k < |ps| && ps[0] in mem && ps[k] in mem && SumLen(mem, ps[..k]) <= newLen && i <= k
    ensures SumLen(mem, ps[..i]) <= newLen
    ensures SumLen(Trim(mem, ps, newLen, k), ps[i..k + 1]) == newLen - SumLen(mem, ps[..i])
  {
    var mem' := Trim(mem, ps, newLen, k);
    forall j | 0 <= j < k ensures ps[j] in mem && ps[j] != ps[k] && ps[j] in mem' && mem'[ps[j]].len == mem[ps[j]].len {
      ListFrom(mem, p, ps, j);
      ListDistinct(mem, p, ps, j, k);
      TrimAt(mem, ps, newLen, k, ps[j]);
    }
    TrimAt(mem, ps, newLen, k, ps[k]);
    hide Trim;
    hide IsList;
    assert ps[i..k + 1] == ps[i..k] + [ps[k]];
    SumLenConcat(mem', ps[i..k], [ps[k]]);
    assert [ps[k]][1..] == [];
    SumLenFrame(mem, mem', ps[i..k]);
    assert ps[..k] == ps[..i] + ps[i..k];
    SumLenConcat(mem, ps[..i], ps[i..k]);
  }

  /** What trimming does to the buffers in front of the last one. */
  lemma TrimFront(mem: Memory, p: int, ps: seq<int>, newLen: nat, k: nat, j: nat)
    requires IsList(mem, p, ps) && j < k < |ps| && ps[0] in mem && ps[k] in mem && SumLen(mem, ps[..k]) <= newLen
    ensures ps[j] in mem && ps[j] in Trim(mem, ps, newLen, k)
    ensures Trim(mem, ps, newLen, k)[ps[j]] ==
            mem[ps[j]].(totLen := (mem[ps[j]].totLen + Grow(mem, ps[0], newLen)) % U16)
  {
    hide Trim;
    hide SumLen;
    ListFrom(mem, p, ps, j);
    ListDistinct(mem, p, ps, j, k);
    hide IsList;
    assert ps[j] in ps[..k] by { assert ps[..k][j] == ps[j]; }
    TrimAt(mem, ps, newLen, k, ps[j]);
  }

  lemma TotAtStart(mem: Memory, ps: seq<int>, i: nat)
    requires TotOk(mem, ps) && i < |ps|
    ensures ps[0] in mem && ps[i] in mem
    ensures mem[ps[i]].totLen == SumLen(mem, ps[i..]) % U16
    ensures mem[ps[0]].totLen == (SumLen(mem, ps[..i]) + SumLen(mem, ps[i..])) % U16
  {
    SumLenConcat(mem, ps[..i], ps[i..]);
    assert ps == ps[..i] + ps[i..] && ps[0..] == ps;
    assert TotAt(mem, ps, 0) && TotAt(mem, ps, i);
    hide SumLen;
  }

  /** The total lengths stay right. */
  lemma TrimTot(mem: Memory, p: int, ps: seq<int>, newLen: nat, k: nat, i: nat)
    requires IsList(mem, p, ps) && TotOk(mem, ps) && i <= k < |ps| && newLen < U16
    requires ps[0] in mem && ps[k] in mem && SumLen(mem, ps[..k]) <= newLen
    ensures var mem' := Trim(mem, ps, newLen, k);
            ps[i] in mem' && mem'[ps[i]].totLen == SumLen(mem', ps[i..k + 1]) % U16
  {
    hide Trim;
    hide SumLen;
    hide IsList;
    hide TotOk;
    TrimSum(mem, p, ps, newLen, k, i);
    if i < k {
      TotAtStart(mem, ps, i);
      TrimFront(mem, p, ps, newLen, k, i);
      GrowSum(mem[ps[i]].totLen, mem[ps[0]].totLen, SumLen(mem, ps[..i]), SumLen(mem, ps[i..]), newLen);
    } else {
      TrimAt(mem, ps, newLen, k, ps[k]);
    }
  }

  lemma CutData(b: Buf, n: nat)
    requires n <= b.len && b.payload + b.len <= |b.bytes|
    ensures n <= |Data(b)| && Data(CutBuf(b, n)) == Data(b)[..n]
  {
    var from, to := b.payload, b.payload + n;
    assert b.bytes[from..from + b.len][..n] == b.bytes[from..to];
    assert b.bytes[..to][from..to] == b.bytes[from..to];
  }

  /** The contents are the first newLen bytes. */
  lemma TrimContents(mem: Memory, p: int, ps: seq<int>, newLen: nat, k: nat)
    requires IsList(mem, p, ps) && HasData(mem, ps) && k < |ps| && ps[0] in mem && ps[k] in mem
    requires SumLen(mem, ps[..k]) <= newLen <= SumLen(mem, ps[..k]) + mem[ps[k]].len
    ensures newLen <= |Contents(mem, ps)|
    ensures Contents(Trim(mem, ps, newLen, k), ps[..k + 1]) == Contents(mem, ps)[..newLen]
  {
    hide Trim;
    hide SumLen;
    hide IsList;
    hide Data;
    hide CutBuf;
    var mem', n := Trim(mem, ps, newLen, k), newLen - SumLen(mem, ps[..k]);
    CutData(mem[ps[k]], n);
    TrimAt(mem, ps, newLen, k, ps[k]);
    hide HasData;
    forall j | 0 <= j < k ensures ps[j] in mem && ps[j] in mem' && Data(mem'[ps[j]]) == Data(mem[ps[j]]) {
      TrimFront(mem, p, ps, newLen, k, j);
      DataTot(mem[ps[j]], mem'[ps[j]].totLen);
    }
    FrontLength(mem, ps, k);
    ContentsFrame(mem, mem', ps[..k]);
    ContentsSplit(mem', ps[..k + 1], k);
    assert ps[..k + 1][..k] == ps[..k] && ps[..k + 1][k + 1..] == [];
    ContentsSplit(mem, ps, k);
    FirstBytes(Contents(mem, ps[..k]), Data(mem[ps[k]]), Contents(mem, ps[k + 1..]), n);
  }

  lemma DataTot(b: Buf, n: nat)
    ensures Data(b.(totLen := n)) == Data(b)
  {
  }

  lemma FrontLength(mem: Memory, ps: seq<int>, k: nat)
    requires HasData(mem, ps) && k < |ps|
    ensures |Contents(mem, ps[..k])| == SumLen(mem, ps[..k])
  {
    assert HasData(mem, ps[..k]);
    ContentsLength(mem, ps[..k]);
  }

  lemma FirstBytes(c: seq<u8>, d: seq<u8>, e: seq<u8>, n: nat)
    requires n <= |d|
    ensures (c + d + e)[..|c| + n] == c + d[..n]
  {
  }

  lemma ContentsSplit(mem: Memory, ps: seq<int>, k: nat)
    requires k < |ps| && ps[k] in mem
    ensures Contents(mem, ps) == Contents(mem, ps[..k]) + Data(mem[ps[k]]) + Contents(mem, ps[k + 1..])
  {
    assert ps == (ps[..k] + [ps[k]]) + ps[k + 1..];
    ContentsConcat(mem, ps[..k] + [ps[k]], ps[k + 1..]);
    PutTogether(mem, ps[..k], ps[k]);
  }

  lemma PutTogether(mem: Memory, ps: seq<int>, q: int)
    requires q in mem
    ensures Contents(mem, ps + [q]) == Contents(mem, ps) + Data(mem[q])
  {
    ContentsConcat(mem, ps, [q]);
    assert [q][1..] == [];
  }

  /** pbuf_realloc, when it stops at place k: the lengths are trimmed, the rest of the chain is cut off and
      freed. */
  function Shrink(w: World, ps: seq<int>, newLen: nat, k: nat): World
    requires k < |ps| && ps[0] in w.mem && ps[k] in w.mem && SumLen(w.mem, ps[..k]) <= newLen
  {
    var cut := Unlink(w.(mem := Trim(w.mem, ps, newLen, k)), ps[k]);
    if k + 1 < |ps| then Free(cut, ps[k + 1..]) else cut
  }

  lemma TrimLinks(w: World, ps: seq<int>, newLen: nat, k: nat)
    requires Inv(w) && k < |ps| && ps[0] in w.mem && ps[k] in w.mem && SumLen(w.mem, ps[..k]) <= newLen
    ensures Inv(w.(mem := Trim(w.mem, ps, newLen, k)))
    ensures forall x :: x in w.mem ==>
            x in Trim(w.mem, ps, newLen, k) && Trim(w.mem, ps, newLen, k)[x].next == w.mem[x].next
  {
    hide Linkers;
    hide Ends;
    var w1 := w.(mem := Trim(w.mem, ps, newLen, k));
    forall x | x in w.mem
      ensures x in w1.mem && w1.mem[x].next == w.mem[x].next && w1.mem[x].kind == w.mem[x].kind
              && w1.mem[x].ref == w.mem[x].ref
    {
      TrimAt(w.mem, ps, newLen, k, x);
    }
    TrimKeys(w.mem, ps, newLen, k);
    hide Trim;
    SameLinks(w, w1);
  }

  lemma TrimKeys(mem: Memory, ps: seq<int>, newLen: nat, k: nat)
    requires k < |ps| && ps[0] in mem && ps[k] in mem && SumLen(mem, ps[..k]) <= newLen
    ensures Trim(mem, ps, newLen, k).Keys == mem.Keys
  {
    hide AddTot;
    hide CutBuf;
  }

  /** The chain cut at place k: its front, and its tail, which holds a reference for whoever frees it. */
  lemma CutChain(w: World, p: int, ps: seq<int>, k: nat)
    requires Inv(w) && p in w.live && IsList(w.mem, p, ps) && k < |ps|
    ensures ps[k] in w.live && ps[k] in w.mem && Inv(Unlink(w, ps[k]))
    ensures IsList(Unlink(w, ps[k]).mem, p, ps[..k + 1])
    ensures k + 1 < |ps| ==>
            ps[k + 1] in Unlink(w, ps[k]).outside && IsList(Unlink(w, ps[k]).mem, ps[k + 1], ps[k + 1..])
    ensures Unlink(w, ps[k]).outside == w.outside + if k + 1 < |ps| then multiset{ps[k + 1]} else multiset{}
  {
    ChainLive(w, p, ps, k);
    UnlinkKeeps(w, ps[k]);
    NextOnList(w.mem, p, ps, k);
    hide Inv;
    FrontList(w.mem, p, ps, k);
    if k + 1 < |ps| {
      ListFrom(w.mem, p, ps, k + 1);
      ListFrom(w.mem, p, ps, k);
      HeadNotInTail(w.mem, ps[k], ps[k..]);
      ListFrame(w.mem, Unlink(w, ps[k]).mem, ps[k + 1], ps[k + 1..]);
    }
  }

  lemma {:induction false} FrontList(mem: Memory, p: int, ps: seq<int>, k: nat)
    requires IsList(mem, p, ps) && k < |ps| && ps[k] in mem
    ensures IsList(mem[ps[k] := mem[ps[k]].(next := NULL)], p, ps[..k + 1])
    decreases |ps|
  {
    if k > 0 {
      ListDistinct(mem, p, ps, 0, k);
      FrontList(mem, mem[p].next, ps[1..], k - 1);
      assert ps[..k + 1][1..] == ps[1..][..k];
    } else {
      assert ps[..1][1..] == [];
    }
  }

  /** Freeing a tail leaves a chain in front of it as it is. */
  lemma FreeTail(w: World, ts: seq<int>, p: int, qs: seq<int>)
    requires Inv(w) && ts != [] && ts[0] in w.outside && IsList(w.mem, ts[0], ts)
    requires IsList(w.mem, p, qs) && p in w.live && Disjoint(qs, ts)
    ensures IsList(Free(w, ts).mem, p, qs) && p in Free(w, ts).live
    ensures forall i :: 0 <= i < |qs| ==>
            qs[i] in w.mem && qs[i] in Free(w, ts).mem && Free(w, ts).mem[qs[i]] == w.mem[qs[i]]
  {
    var w' := Free(w, ts);
    NotNull(w, p);
    forall i | 0 <= i < |qs|
      ensures qs[i] in w'.live && qs[i] in w.mem && qs[i] in w'.mem && w'.mem[qs[i]] == w.mem[qs[i]]
    {
      ChainLive(w, p, qs, i);
      FreeExactly(w, ts, qs[i]);
    }
    hide Free;
    hide Inv;
    ListFrame(w.mem, w'.mem, p, qs);
  }

  lemma NotNull(w: World, p: int)
    requires Inv(w) && p in w.live
    ensures p != NULL && p in w.mem
  {
  }

  /** The buffers are the same, but for where they link to. */
  ghost predicate SameButLinks(mem: Memory, mem': Memory, ps: seq<int>) {
    forall i :: 0 <= i < |ps| ==> ps[i] in mem && ps[i] in mem' && mem'[ps[i]] == mem[ps[i]].(next := mem'[ps[i]].next)
  }

  ghost predicate Disjoint(ps: seq<int>, qs: seq<int>) {
    forall i, j :: 0 <= i < |ps| && 0 <= j < |qs| ==> ps[i] != qs[j]
  }

  /** pbuf_realloc keeps the invariant and all references held outside, and its chain is the front of the
      old one. */
  lemma ShrinkKeeps(w: World, p: int, ps: seq<int>, newLen: nat, k: nat)
    requires Inv(w) && p in w.live && IsList(w.mem, p, ps) && k < |ps|
    requires ps[0] in w.mem && ps[k] in w.mem && SumLen(w.mem, ps[..k]) <= newLen
    ensures var w' := Shrink(w, ps, newLen, k);
            && Inv(w') && w'.outside == w.outside && p in w'.live && IsList(w'.mem, p, ps[..k + 1])
            && SameButLinks(Trim(w.mem, ps, newLen, k), w'.mem, ps[..k + 1])
  {
    hide Inv;
    hide Trim;
    hide SumLen;
    var w1 := w.(mem := Trim(w.mem, ps, newLen, k));
    TrimLinks(w, ps, newLen, k);
    ListFrame(w.mem, w1.mem, p, ps);
    CutChain(w1, p, ps, k);
    var w2 := Unlink(w1, ps[k]);
    var w' := Shrink(w, ps, newLen, k);
    var qs := ps[..k + 1];
    forall i | 0 <= i < |qs| ensures qs[i] in w1.mem {
      ListFrom(w1.mem, p, ps, i);
    }
    if k + 1 < |ps| {
      FreeKeeps(w2, ps[k + 1..]);
      FreeOutside(w2, ps[k + 1..]);
      FrontNotInTail(w1.mem, p, ps, k);
      FreeTail(w2, ps[k + 1..], p, ps[..k + 1]);
      hide Free;
    }
    hide IsList;
  }

  lemma FrontNotInTail(mem: Memory, p: int, ps: seq<int>, k: nat)
    requires IsList(mem, p, ps) && k < |ps|
    ensures Disjoint(ps[..k + 1], ps[k + 1..])
  {
    forall i, j | 0 <= i <= k < j < |ps| ensures ps[i] != ps[j] {
      ListDistinct(mem, p, ps, i, j);
    }
  }

  /** The chain that is left has exactly the length asked for, right total lengths, and the first newLen
      bytes of the old contents. */
  lemma ShrinkChain(w: World, p: int, ps: seq<int>, newLen: nat, k: nat)
    requires Inv(w) && p in w.live && IsList(w.mem, p, ps) && ps != [] && TotOk(w.mem, ps) && newLen < U16
    requires newLen <= SumLen(w.mem, ps) && k == Stop(w.mem, ps, newLen)
    ensures k < |ps| && ps[0] in w.mem && ps[k] in w.mem && SumLen(w.mem, ps[..k]) <= newLen
    ensures var mem' := Shrink(w, ps, newLen, k).mem;
            && TotOk(mem', ps[..k + 1]) && SumLen(mem', ps[..k + 1]) == newLen
            && (HasData(w.mem, ps) ==>
                newLen <= |Contents(w.mem, ps)| && Contents(mem', ps[..k + 1]) == Contents(w.mem, ps)[..newLen])
  {
    hide Inv;
    hide Shrink;
    hide Trim;
    hide HasData;
    hide SameButLinks;
    hide TotOk;
    hide Stop;
    hide SumLen;
    hide Contents;
    StopFits(w.mem, p, ps, newLen);
    ListFrom(w.mem, p, ps, 0);
    ShrinkKeeps(w, p, ps, newLen, k);
    var mem', mem1 := Shrink(w, ps, newLen, k).mem, Trim(w.mem, ps, newLen, k);
    ShrinkTot(w.mem, mem1, mem', p, ps, newLen, k);
    if HasData(w.mem, ps) {
      TrimContents(w.mem, p, ps, newLen, k);
      SameButLinksContents(mem1, mem', ps[..k + 1]);
    }
  }

  lemma SameButLinksContents(mem: Memory, mem': Memory, ps: seq<int>)
    requires SameButLinks(mem, mem', ps)
    ensures Contents(mem', ps) == Contents(mem, ps) && SumLen(mem', ps) == SumLen(mem, ps)
  {
    ContentsFrame(mem, mem', ps);
    SumLenFrame(mem, mem', ps);
  }

  lemma SameButLinksFrom(mem: Memory, mem': Memory, ps: seq<int>, i: nat)
    requires SameButLinks(mem, mem', ps) && i <= |ps|
    ensures SameButLinks(mem, mem', ps[i..])
    ensures i < |ps| ==> ps[i] in mem && ps[i] in mem' && mem'[ps[i]].totLen == mem[ps[i]].totLen
  {
  }

  lemma ShrinkTot(mem: Memory, mem1: Memory, mem': Memory, p: int, ps: seq<int>, newLen: nat, k: nat)
    requires IsList(mem, p, ps) && TotOk(mem, ps) && newLen < U16
    requires k < |ps| && ps[0] in mem && ps[k] in mem && SumLen(mem, ps[..k]) <= newLen
             && mem1 == Trim(mem, ps, newLen, k)
    requires SameButLinks(mem1, mem', ps[..k + 1])
    ensures TotOk(mem', ps[..k + 1]) && SumLen(mem', ps[..k + 1]) == newLen
  {
    hide Trim;
    hide IsList;
    hide SameButLinks;
    var qs := ps[..k + 1];
    TrimSum(mem, p, ps, newLen, k, 0);
    assert ps[0..k + 1] == qs && SumLen(mem, ps[..0]) == 0;
    SameButLinksContents(mem1, mem', qs);
    hide SumLen;
    forall i | 0 <= i < |qs| ensures TotAt(mem', qs, i) {
      TrimTot(mem, p, ps, newLen, k, i);
      assert qs[i..] == ps[i..k + 1];
      SameButLinksFrom(mem1, mem', qs, i);
      SameButLinksContents(mem1, mem', qs[i..]);
    }
  }
}
