/**
 * What sending, writing and acknowledging do to each of the two queues and to snd_nxt.
 */
module SenderLaws {
  import opened Segments
  import opened Sender

  // ---------------------------------------------------------------------------------------------
  // Output

  function Wires(q: seq<TxSeg>): (r: seq<Seg>)
    ensures |r| == |q| && forall i :: 0 <= i < |q| ==> r[i] == q[i].Wire()
  {
    seq(|q|, i requires 0 <= i < |q| => q[i].Wire())
  }

  /** tcp_output sends exactly the unsent segments up to the first that does not end inside the window, in order,
      and each of them is unacknowledged then. */
  lemma {:induction false} OutputExactly(s: Snd, wnd: nat)
    requires forall q <- s.unsent :: q.Len() > 0
    ensures var k, s' := Covered(s.unsent, s.lastack + wnd), Output(s, wnd);
            && Sent(s, wnd) == Wires(s.unsent[..k])
            && s'.unacked == s.unacked + s.unsent[..k] && s'.unsent == s.unsent[k..]
            && s'.nxt == if k > 0 then s.unsent[k - 1].End() else s.nxt
    decreases |s.unsent|
  {
    var k, q := Covered(s.unsent, s.lastack + wnd), s.unsent;
    if Fits(s, wnd) {
      var s1 := SendFirst(s);
      OutputExactly(s1, wnd);
      OneMore(s.unacked, q, k);
      hide Covered;
      hide Wires;
      SentFirst(s, wnd);
      hide Sent;
      hide Output;
    } else {
      assert q[..0] == [] && q[0..] == q && s.unacked + [] == s.unacked;
    }
  }

  lemma SentFirst(s: Snd, wnd: nat)
    requires Fits(s, wnd)
    ensures Sent(s, wnd) == [s.unsent[0].Wire()] + Sent(SendFirst(s), wnd)
    ensures Output(s, wnd) == Output(SendFirst(s), wnd)
  {
    hide SendFirst;
  }

  lemma OneMore(a: seq<TxSeg>, q: seq<TxSeg>, k: nat)
    requires 0 < k <= |q|
    ensures q[1..][..k - 1] == q[1..k] && q[1..][k - 1..] == q[k..]
    ensures a + [q[0]] + q[1..k] == a + q[..k]
    ensures Wires(q[..k]) == [q[0].Wire()] + Wires(q[1..k])
    ensures k > 1 ==> q[1..][k - 2] == q[k - 1]
  {
  }

  lemma {:induction false} OutputMax(s: Snd, wnd: nat)
    ensures Output(s, wnd).max == s.max || exists x <- Sent(s, wnd) :: x.End() == Output(s, wnd).max
    decreases |s.unsent|
  {
    if Fits(s, wnd) {
      OutputMax(SendFirst(s), wnd);
      assert s.unsent[0].Wire() in Sent(s, wnd);
      if Output(s, wnd).max != SendFirst(s).max {
        var x :| x in Sent(SendFirst(s), wnd) && x.End() == Output(s, wnd).max;
        assert x in Sent(s, wnd);
      }
    }
  }

  /** Retransmission is no less than that: everything in flight comes first again. */
  lemma RexmitExactly(s: Snd)
    requires s.unacked != []
    ensures Rexmit(s).unacked == [] && Rexmit(s).unsent == s.unacked + s.unsent
    ensures Rexmit(s).nxt == s.unacked[0].seqno
  {
  }

  // ---------------------------------------------------------------------------------------------
  // Acknowledgements

  lemma {:induction false} PruneUnackedExactly(s: Snd, ack: int)
    ensures var s' := PruneUnacked(s, ack);
            s' == s.(unacked := s.unacked[Covered(s.unacked, ack)..], queuelen := s'.queuelen)
    decreases |s.unacked|
  {
    if s.unacked != [] && s.unacked[0].End() <= ack {
      PruneUnackedExactly(TakeUnacked(s), ack);
      assert s.unacked[1..][Covered(s.unacked, ack) - 1..] == s.unacked[Covered(s.unacked, ack)..];
    }
  }

  lemma {:induction false} PruneUnsentExactly(s: Snd, ack: int)
    requires ack <= s.max
    ensures var s', m := PruneUnsent(s, ack), Covered(s.unsent, ack);
            && s' == s.(unsent := s.unsent[m..], queuelen := s'.queuelen, nxt := s'.nxt)
            && s'.nxt == if m == 0 then s.nxt else if m < |s.unsent| then s.unsent[m].seqno
                         else if m > 1 then s.unsent[m - 1].seqno else s.nxt
    decreases |s.unsent|
  {
    if s.unsent != [] && s.unsent[0].End() <= ack {
      var s1, m := TakeUnsent(s), Covered(s.unsent, ack);
      PruneUnsentExactly(s1, ack);
      assert Covered(s1.unsent, ack) == m - 1;
      assert s.unsent[1..][m - 1..] == s.unsent[m..];
      assert m < |s.unsent| ==> s1.unsent[m - 1] == s.unsent[m];
    }
  }

  /** How many unsent segments an acknowledgement removes: none while some of unacked is left. */
  function Freed(s: Snd, ack: int): nat {
    if Covered(s.unacked, ack) == |s.unacked| then Covered(s.unsent, ack) else 0
  }

  /** An acknowledgement that is news takes the covered segments from the front of unacked, and from unsent only
      when all of unacked is covered.  What is left of unacked stays there: nothing in flight becomes unsent. */
  lemma AckExactly(s: Snd, ack: int, fast: bool, written: seq<byte>, isn: int, room: nat)
    requires Inv(s, written, isn, room) && Advances(s, ack)
    ensures var s', m := Ack(s, ack, fast), Freed(s, ack);
            && s'.unacked == s.unacked[Covered(s.unacked, ack)..] && s'.unsent == s.unsent[m..]
            && s'.buf == s.buf + (ack - s.lastack) && s'.lbb == s.lbb
            && s'.nxt == if m == 0 then s.nxt else if m < |s.unsent| then s.unsent[m].seqno
                         else if m > 1 then s.unsent[m - 1].seqno else s.nxt
  {
    var s0 := Advance(s, ack);
    AdvanceKeeps(s, ack, written, isn, room);
    PruneUnackedExactly(s0, ack);
    var s1 := PruneUnacked(s0, ack);
    if Covered(s.unacked, ack) < |s.unacked| {
      UnackedFirst(s, written, isn, room);
      hide Queued;
      NoneCovered(s1.unsent, ack);
    }
    hide Queued;
    PruneUnsentExactly(s1, ack);
  }

  lemma NoneCovered(q: seq<TxSeg>, ack: int)
    requires q != [] ==> ack < q[0].End()
    ensures Covered(q, ack) == 0
  {
  }

  /** Every unacknowledged segment ends where or before every unsent one starts. */
  lemma UnackedFirst(s: Snd, written: seq<byte>, isn: int, room: nat)
    requires Queued(s, written, isn, room)
    ensures forall i, j :: 0 <= i < |s.unacked| && 0 <= j < |s.unsent| ==> s.unacked[i].End() <= s.unsent[j].seqno
    ensures forall i :: 0 <= i < |s.unacked| ==> s.unacked[i].Len() > 0
    ensures forall j :: 0 <= j < |s.unsent| ==> s.unsent[j].Len() > 0
  {
    var q := s.Queue();
    TilesBounds(q, s.Start(), s.lbb);
    hide Tiles;
    forall i | 0 <= i < |s.unacked| ensures q[i] == s.unacked[i] {
    }
    forall j | 0 <= j < |s.unsent| ensures q[|s.unacked| + j] == s.unsent[j] && s.unsent[j].Len() > 0 {
    }
    forall i, j | 0 <= i < |s.unacked| && 0 <= j < |s.unsent| ensures s.unacked[i].End() <= s.unsent[j].seqno {
      assert q[i].End() <= q[|s.unacked| + j].seqno;
    }
  }

  lemma LongerThanNothing(s: Snd, written: seq<byte>, isn: int, room: nat)
    requires Queued(s, written, isn, room)
    ensures forall q <- s.unsent :: q.Len() > 0
  {
    TilesBounds(s.Queue(), s.Start(), s.lbb);
    forall j | 0 <= j < |s.unsent| ensures s.unsent[j].Len() > 0 {
      assert s.Queue()[|s.unacked| + j] == s.unsent[j];
    }
  }

  /** What is sent after news was not in flight before. */
  lemma NewsResendsNothing(s: Snd, ack: int, fast: bool, wnd: nat, written: seq<byte>, isn: int, room: nat)
    requires Inv(s, written, isn, room) && Advances(s, ack)
    ensures forall x, q :: x in Sent(Ack(s, ack, fast), wnd) && q in s.unacked ==> q.End() <= x.seqno
  {
    var s' := Ack(s, ack, fast);
    AckKeeps(s, ack, fast, written, isn, room);
    AckExactly(s, ack, fast, written, isn, room);
    UnackedFirst(s, written, isn, room);
    hide Queued;
    hide Ack;
    forall x | x in Sent(s', wnd) ensures exists j :: 0 <= j < |s.unsent| && s.unsent[j].seqno == x.seqno {
      SentStarts(s', wnd, x);
      var i :| 0 <= i < |s'.unsent| && s'.unsent[i].seqno == x.seqno;
      assert s.unsent[Freed(s, ack) + i] == s'.unsent[i];
    }
  }

  lemma {:induction false} SentStarts(s: Snd, wnd: nat, x: Seg)
    requires x in Sent(s, wnd)
    ensures exists j :: 0 <= j < |s.unsent| && s.unsent[j].seqno == x.seqno
    decreases |s.unsent|
  {
    if x != s.unsent[0].Wire() {
      var s1 := SendFirst(s);
      SentStarts(s1, wnd, x);
      var j :| 0 <= j < |s1.unsent| && s1.unsent[j].seqno == x.seqno;
      assert s.unsent[j + 1] == s1.unsent[j];
    }
  }

  // ---------------------------------------------------------------------------------------------
  // snd_nxt

  /** What is sent next: the first unsent segment, or what is written next. */
  predicate NxtOk(s: Snd) {
    s.nxt == if s.unsent == [] then s.lbb else s.unsent[0].seqno
  }

  /** The acknowledgement of everything while something is unsent, which then was sent before. */
  predicate EndsUnsent(s: Snd, ack: int) {
    s.unsent != [] && s.lastack < ack && ack == s.max == s.lbb
  }

  lemma WriteNxt(s: Snd, data: seq<byte>, copy: bool, memory: nat)
    requires NxtOk(s)
    ensures NxtOk(Write(s, data, copy, memory))
  {
    if data != [] && CanWrite(s, data, copy, memory) {
      var queue := CutUp(data, s.lbb, s.mss, copy);
      if s.unsent != [] {
        AppendFirst(s.unsent, queue, s.mss);
      }
      hide CutUp;
    }
  }

  /** The tiling goes on from a segment to the next, or to the end. */
  lemma NextStarts(s: Snd, i: nat, written: seq<byte>, isn: int, room: nat)
    requires Queued(s, written, isn, room) && i < |s.unsent|
    ensures s.unsent[i].End() == if i + 1 < |s.unsent| then s.unsent[i + 1].seqno else s.lbb
  {
    var q, n := s.Queue(), |s.unacked| + i;
    assert q[n] == s.unsent[i];
    var mid := TilesSplit(q, n + 1, s.Start(), s.lbb);
    if i + 1 < |s.unsent| {
      assert q[n + 1] == s.unsent[i + 1];
    } else {
      assert q[n + 1..] == [];
    }
  }

  lemma OutputNxt(s: Snd, wnd: nat, written: seq<byte>, isn: int, room: nat)
    requires Queued(s, written, isn, room) && (NxtOk(s) || Fits(s, wnd))
    ensures NxtOk(Output(s, wnd))
  {
    LongerThanNothing(s, written, isn, room);
    OutputExactly(s, wnd);
    var k := Covered(s.unsent, s.lastack + wnd);
    if k > 0 {
      NextStarts(s, k - 1, written, isn, room);
    }
    hide Queued;
    OutputLbb(s, wnd);
  }

  lemma {:induction false} OutputLbb(s: Snd, wnd: nat)
    ensures Output(s, wnd).lbb == s.lbb
    decreases |s.unsent|
  {
    if Fits(s, wnd) {
      OutputLbb(SendFirst(s), wnd);
    }
  }

  lemma RexmitNxt(s: Snd)
    requires NxtOk(s) || s.unacked != []
    ensures NxtOk(Rexmit(s))
  {
  }

  lemma {:induction false} AllCovered(q: seq<TxSeg>, ack: int)
    ensures Covered(q, ack) == |q| <==> forall i :: 0 <= i < |q| ==> q[i].End() <= ack
  {
    if q != [] && q[0].End() <= ack {
      AllCovered(q[1..], ack);
      forall i | 0 < i < |q| ensures q[i] == q[1..][i - 1] {
      }
    }
  }

  /** The unsent queue ends with an acknowledgement exactly when it is of everything. */
  lemma UnsentEnds(s: Snd, ack: int, written: seq<byte>, isn: int, room: nat)
    requires Inv(s, written, isn, room) && Advances(s, ack) && s.unsent != []
    ensures Freed(s, ack) == |s.unsent| <==> ack == s.lbb
    ensures ack == s.lbb ==> s.max == s.lbb
  {
    UnackedFirst(s, written, isn, room);
    TilesBounds(s.Queue(), s.Start(), s.lbb);
    forall i | 0 <= i < |s.unsent| ensures s.unsent[i].End() <= s.lbb {
      assert s.Queue()[|s.unacked| + i] == s.unsent[i];
    }
    NextStarts(s, |s.unsent| - 1, written, isn, room);
    AllCovered(s.unsent, ack);
    AllCovered(s.unacked, ack);
    hide Queued;
  }

  /** snd_nxt stays right under an acknowledgement if and only if it is not one of everything while something is
      unsent: the loop over unsent sets snd_nxt from the segment that is left, and then none is. */
  lemma AckNxt(s: Snd, ack: int, fast: bool, written: seq<byte>, isn: int, room: nat)
    requires Inv(s, written, isn, room) && NxtOk(s)
    ensures NxtOk(Ack(s, ack, fast)) <==> !EndsUnsent(s, ack)
  {
    if Advances(s, ack) {
      AckExactly(s, ack, fast, written, isn, room);
      if s.unsent != [] {
        UnsentEnds(s, ack, written, isn, room);
        StartsBelowEnd(s, written, isn, room);
      }
    } else {
      AckNoNews(s, ack, fast, written, isn, room);
      RexmitNxt(s);
    }
    hide Queued;
    hide Ack;
    hide Rexmit;
  }

  lemma StartsBelowEnd(s: Snd, written: seq<byte>, isn: int, room: nat)
    requires Queued(s, written, isn, room)
    ensures forall i :: 0 <= i < |s.unsent| ==> s.unsent[i].seqno < s.lbb
  {
    TilesBounds(s.Queue(), s.Start(), s.lbb);
    forall i | 0 <= i < |s.unsent| ensures s.unsent[i].seqno < s.lbb {
      assert s.Queue()[|s.unacked| + i] == s.unsent[i];
    }
  }

  /** One byte is written, sent, and made unsent again by a timeout; then its acknowledgement comes.  snd_nxt still
      is the number of that byte, although the next byte is the one after it. */
  lemma NxtIsStale()
    ensures var s := Write(Fresh(0, 10, 5), [7], true, 2);
            var s' := Ack(Rexmit(Output(s, 10)), 1, false);
            s'.unsent == [] && s'.unacked == [] && s'.lbb == 1 && s'.nxt == 0
  {
    var q := TxSeg(0, [7], 1);
    var s := Write(Fresh(0, 10, 5), [7], true, 2);
    assert CutUp([7], 0, 5, true) == [q];
    assert s == Snd([], [q], 1, 0, 0, 0, 9, 1, 5);
    var s1 := Output(s, 10);
    assert SendFirst(s) == Snd([q], [], 1, 0, 1, 1, 9, 1, 5);
    assert s1 == SendFirst(s);
    var s2 := Rexmit(s1);
    assert s2 == Snd([], [q], 1, 0, 0, 1, 9, 1, 5);
    var s3 := Advance(s2, 1);
    assert PruneUnacked(s3, 1) == s3;
    assert PruneUnsent(s3, 1) == TakeUnsent(s3);
  }

  // ---------------------------------------------------------------------------------------------
  // Writing

  /** All segments of a cut are full but the last. */
  lemma {:induction false} CutUpFull(data: seq<byte>, seqno: int, mss: nat, copy: bool)
    requires mss > 0 && data != []
    ensures var q := CutUp(data, seqno, mss, copy);
            && (forall i :: 0 <= i < |q| - 1 ==> q[i].Len() == mss)
            && 0 < q[|q| - 1].Len() <= mss
    decreases |data|
  {
    if |data| > mss {
      var q, rest := CutUp(data, seqno, mss, copy), CutUp(data[mss..], seqno + mss, mss, copy);
      CutUpFull(data[mss..], seqno + mss, mss, copy);
      assert q[1..] == rest;
      hide CutUp;
      forall i | 0 < i < |q| ensures q[i] == rest[i - 1] {
      }
    }
  }

  /** So their number is that of the data over mss, rounded up. */
  lemma {:induction false} CutUpCount(data: seq<byte>, seqno: int, mss: nat, copy: bool)
    requires mss > 0 && data != []
    ensures var n := |CutUp(data, seqno, mss, copy)|; (n - 1) * mss < |data| <= n * mss
    decreases |data|
  {
    var n := |CutUp(data, seqno, mss, copy)|;
    if |data| > mss {
      CutUpCount(data[mss..], seqno + mss, mss, copy);
      hide CutUp;
      OneTimeMore(n, mss);
      OneTimeMore(n - 1, mss);
    }
  }

  lemma OneTimeMore(n: nat, m: nat)
    requires n > 0
    ensures n * m == m + (n - 1) * m
  {
  }

  lemma SameQuotient(len: nat, m: nat, n: nat, k: nat)
    requires m > 0 && n > 0 && k > 0 && (n - 1) * m < len <= n * m && (k - 1) * m < len <= k * m
    ensures n == k
  {
    if n < k {
      Times(n, k - 1, m);
    } else if k < n {
      Times(k, n - 1, m);
    }
  }

  lemma Times(a: nat, b: nat, m: nat)
    requires a <= b
    ensures a * m <= b * m
  {
  }

  /** A write goes through if and only if the data fits the send buffer, the queue is not full, and there is room in
      the queue and memory for the buffers of as many segments as the data fills: n is |data| / mss, rounded up. */
  lemma WriteGoesThrough(s: Snd, data: seq<byte>, copy: bool, memory: nat, n: nat)
    requires data != [] && s.mss > 0 && n > 0 && (n - 1) * s.mss < |data| <= n * s.mss
    ensures CanWrite(s, data, copy, memory) <==>
            && |data| <= s.buf && s.queuelen < 8
            && s.queuelen + (if copy then n else 2 * n) <= 8
            && n + (if copy then n else 2 * n) <= memory
  {
    CutUpCount(data, s.lbb, s.mss, copy);
    var k := |CutUp(data, s.lbb, s.mss, copy)|;
    hide CutUp;
    SameQuotient(|data|, s.mss, n, k);
  }

  /** Without a segment size nothing can be written. */
  lemma NoSegmentSize(s: Snd, data: seq<byte>, copy: bool, memory: nat)
    requires s.mss == 0
    ensures !CanWrite(s, data, copy, memory)
  {
  }

  /** A successful write makes as many segments, but one less if the first is merged into the last unsent one, which
      is done exactly when that leaves it no longer than mss. */
  lemma WriteMerges(s: Snd, data: seq<byte>, copy: bool, memory: nat)
    requires data != [] && CanWrite(s, data, copy, memory)
    ensures var first := if |data| <= s.mss then |data| else s.mss;
            |Write(s, data, copy, memory).unsent| == |s.unsent| + |CutUp(data, s.lbb, s.mss, copy)|
              - if s.unsent != [] && 0 < s.unsent[|s.unsent| - 1].Len() <= s.mss - first then 1 else 0
  {
  }
}
