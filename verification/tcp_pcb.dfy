/**
 * The TCP control block as it is in memory: 32-bit sequence numbers, 16-bit lengths, an 8-bit buffer
 * count, and queues that are changed in place.  Every method is proved to do what Sender and Receiver
 * say over unbounded numbers.
 */
module ControlBlock {
  import opened Segments
  import S = Sender
  import R = Receiver

  /** How far a number in a segment may be from the connection's own numbers.  32-bit comparisons mean
      nothing beyond half the number space; this leaves room for windows and lengths. */
  const FAR := HALF - 2 * U16

  function WireSeg(s: Seg): Seg { s.(seqno := W(s.seqno)) }

  function WireSegs(q: seq<Seg>): (r: seq<Seg>)
    ensures |r| == |q|
  {
    seq(|q|, i requires 0 <= i < |q| => WireSeg(q[i]))
  }

  function WireTx(q: seq<S.TxSeg>): (r: seq<S.TxSeg>)
    ensures |r| == |q|
  {
    seq(|q|, i requires 0 <= i < |q| => q[i].(seqno := W(q[i].seqno)))
  }

  function WireSnd(s: S.Snd): S.Snd {
    S.Snd(WireTx(s.unacked), WireTx(s.unsent), W(s.lbb), W(s.lastack), W(s.nxt), W(s.max), s.buf, s.queuelen, s.mss)
  }

  lemma FreshImage(isn: int, irs: int, room: nat, mss: nat)
    requires 0 <= isn < U32 && 0 <= irs < U32
    ensures WireSnd(S.Fresh(isn, room, mss)) == S.Fresh(isn, room, mss) && S.Buffers([]) == 0
    ensures W(irs) == irs && WireSegs([]) == []
  {
    WireSmall(isn);
    WireSmall(irs);
  }

  class TcpPcb {
    // the sender's part
    var unacked: seq<S.TxSeg>
    var unsent: seq<S.TxSeg>
    var sndLbb: int
    var lastAck: int
    var sndNxt: int
    var sndMax: int
    var sndBuf: nat
    var sndQueueLen: nat
    var mss: nat

    // the receiver's part
    var rcvNxt: int
    var rcvWnd: nat
    var ooseq: seq<Seg>
    var delivered: seq<byte>

    // what the connection holds of the memory pools
    var segsHeld: int
    var buffersHeld: int

    // the unbounded numbers, the bytes ever written, and the size of the send buffer
    ghost var snd: S.Snd
    ghost var rcv: R.Rcv
    ghost var written: seq<byte>
    ghost var isn: int
    ghost var room: nat

    /** The sender's fields in one value. */
    ghost function SenderFields(): S.Snd
      reads this
    {
      S.Snd(unacked, unsent, sndLbb, lastAck, sndNxt, sndMax, sndBuf, sndQueueLen, mss)
    }

    /** The fields are the images of the unbounded state, and the memory held is that of the queues and
        of the given number of segments and buffers. */
    ghost predicate SenderTied(segs: int := 0, buffers: int := 0)
      reads this
    {
      && SenderFields() == WireSnd(snd)
      && segsHeld == |snd.unacked| + |snd.unsent| + segs
      && buffersHeld == S.Buffers(snd.unacked) + S.Buffers(snd.unsent) + buffers
    }

    ghost predicate SenderValid()
      reads this
    {
      SenderTied() && S.Inv(snd, written, isn, room) && mss < U16
    }

    ghost predicate ReceiverTied()
      reads this
    {
      rcvNxt == W(rcv.nxt) && rcvWnd == rcv.wnd && ooseq == WireSegs(rcv.ooseq) && delivered == rcv.delivered
    }

    ghost predicate ReceiverValid()
      reads this
    {
      ReceiverTied() && R.QueueOk(rcv)
    }

    /** A connection just after the handshake: what is sent starts at isn, what is received at irs. */
    constructor (isn: int, irs: int, room: nat, mss: nat)
      requires 0 <= isn < U32 && 0 <= irs < U32 && room < U16 && mss < U16
      ensures SenderValid() && ReceiverValid()
      ensures snd == S.Fresh(isn, room, mss) && written == [] && this.isn == isn && this.room == room
      ensures rcv == R.Rcv(irs, R.TCP_WND, [], [])
    {
      hide S.Inv;
      hide W;
      hide WireTx;
      hide S.Buffers;
      FreshImage(isn, irs, room, mss);
      S.FreshInv(isn, room, mss);
      unacked, unsent := [], [];
      sndLbb, lastAck, sndNxt, sndMax := isn, isn, isn, isn;
      sndBuf, sndQueueLen, this.mss := room, 0, mss;
      rcvNxt, rcvWnd, ooseq, delivered := irs, R.TCP_WND, [], [];
      segsHeld, buffersHeld := 0, 0;
      snd, rcv := S.Fresh(isn, room, mss), R.Rcv(irs, R.TCP_WND, [], []);
      written, this.isn, this.room := [], isn, room;
    }

    // -------------------------------------------------------------------------------------------
    // Output

    /** What sending the first unsent segment does to the fields. */
    lemma SendImage()
      requires SenderValid() && unsent != []
      ensures var seg, s' := unsent[0], S.SendFirst(snd);
              var end := W(seg.seqno + seg.Len());
              && WireSnd(s') == SenderFields().(unacked := if seg.Len() > 0 then unacked + [seg] else unacked,
                                                unsent := unsent[1..],
                                                nxt := end,
                                                max := if SeqLt(sndMax, end) then end else sndMax)
              && seg.Wire() == WireSeg(snd.unsent[0].Wire())
              && segsHeld == |s'.unacked| + |s'.unsent|
              && buffersHeld == S.Buffers(s'.unacked) + S.Buffers(s'.unsent)
    {
      hide W;
      hide S.Inv;
      EndInWindow(snd, written, isn, room);
      WireComparisons(snd.max, snd.unsent[0].End());
      S.BuffersSnoc(snd.unacked, snd.unsent[0]);
      WireTxJoin(snd.unacked, [snd.unsent[0]]);
      assert WireTx([snd.unsent[0]]) == [unsent[0]];
      assert WireTx(snd.unsent[1..]) == unsent[1..];
    }

    /** The body of the loop of tcp_output. */
    method SendFirst() returns (s: Seg)
      requires SenderValid() && unsent != []
      modifies `unacked, `unsent, `sndNxt, `sndMax, `snd
      ensures SenderValid()
      ensures snd == S.SendFirst(old(snd))
      ensures s == WireSeg(old(snd.unsent[0].Wire()))
    {
      hide S.Inv;
      hide W;
      hide WireTx;
      hide S.Buffers;
      hide S.SendFirst;
      SendImage();
      S.SendFirstKeeps(snd, written, isn, room);
      var seg := unsent[0];
      unsent := unsent[1..];
      s := seg.Wire();
      sndNxt := W(seg.seqno + seg.Len());
      if SeqLt(sndMax, sndNxt) {
        sndMax := sndNxt;
      }
      if seg.Len() > 0 {
        unacked := unacked + [seg];
      }
      snd := S.SendFirst(snd);
    }

    /** The condition of the loop of tcp_output. */
    predicate CanSend(wnd: nat)
      reads this
    {
      unsent != [] && W(W(unsent[0].seqno - lastAck) + unsent[0].Len()) <= wnd
    }

    lemma CanSendIsFits(wnd: nat)
      requires SenderValid()
      ensures CanSend(wnd) <==> S.Fits(snd, wnd)
      ensures unsent == [] <==> snd.unsent == []
    {
      hide W;
      hide S.Inv;
      if unsent != [] {
        EndInWindow(snd, written, isn, room);
      }
    }

    /** tcp_output: sends unsent segments as long as they end inside the window. */
    method TcpOutput(wnd: nat) returns (sent: seq<Seg>)
      requires SenderValid()
      modifies `unacked, `unsent, `sndNxt, `sndMax, `snd
      ensures SenderValid()
      ensures snd == S.Output(old(snd), wnd)
      ensures sent == WireSegs(S.Sent(old(snd), wnd))
    {
      hide SenderValid;
      hide S.SendFirst;
      sent := [];
      ghost var out := [];
      CanSendIsFits(wnd);
      while CanSend(wnd)
        invariant SenderValid()
        invariant CanSend(wnd) <==> S.Fits(snd, wnd)
        invariant S.Output(snd, wnd) == S.Output(old(snd), wnd)
        invariant out + S.Sent(snd, wnd) == S.Sent(old(snd), wnd)
        invariant sent == WireSegs(out)
        decreases |snd.unsent|
      {
        ghost var s0 := snd;
        CanSendIsFits(wnd);
        SendFirstShorter(snd);
        var s := SendFirst();
        sent := sent + [s];
        JoinCons(out, s0.unsent[0].Wire(), S.Sent(snd, wnd));
        out := out + [s0.unsent[0].Wire()];
        CanSendIsFits(wnd);
      }
      assert out + [] == out;
    }

    /** What retransmission does to the fields. */
    lemma RequeueImage()
      requires SenderValid() && unacked != []
      ensures var s' := S.Rexmit(snd);
              && WireSnd(s') == SenderFields().(unacked := [], unsent := unacked + unsent, nxt := unacked[0].seqno)
              && segsHeld == |s'.unacked| + |s'.unsent|
              && buffersHeld == S.Buffers(s'.unacked) + S.Buffers(s'.unsent)
    {
      hide W;
      hide S.Inv;
      RexmitFields(snd);
      S.BytesJoin(snd.unacked, snd.unsent);
      WireTxJoin(snd.unacked, snd.unsent);
    }

    /** All unacknowledged segments are moved to the front of the unsent queue. */
    method Requeue()
      requires SenderValid() && unacked != []
      modifies `unacked, `unsent, `sndNxt, `snd
      ensures SenderValid()
      ensures snd == S.Rexmit(old(snd))
    {
      hide S.Inv;
      hide S.Rexmit;
      hide S.Buffers;
      hide W;
      hide WireTx;
      RequeueImage();
      S.RexmitKeeps(snd, written, isn, room);
      unsent := unacked + unsent;
      unacked := [];
      sndNxt := unsent[0].seqno;
      snd := S.Rexmit(snd);
    }

    /** tcp_rexmit: everything unacknowledged is unsent again, and is sent at once unless input is being
        processed for this connection. */
    method TcpRexmit(busy: bool, wnd: nat) returns (sent: seq<Seg>)
      requires SenderValid()
      modifies `unacked, `unsent, `sndNxt, `sndMax, `snd
      ensures SenderValid()
      ensures snd == if busy || old(snd).unacked == [] then S.Rexmit(old(snd)) else S.Output(S.Rexmit(old(snd)), wnd)
      ensures sent == if busy || old(snd).unacked == [] then [] else WireSegs(S.Sent(S.Rexmit(old(snd)), wnd))
      ensures busy ==> sndMax == old(sndMax)
    {
      hide S.Inv;
      hide S.Output;
      hide S.Sent;
      sent := [];
      if unacked == [] {
        return;
      }
      Requeue();
      if !busy {
        sent := TcpOutput(wnd);
      }
    }

    // -------------------------------------------------------------------------------------------
    // Acknowledgements

    /** The queues while they are pruned: some segments at the front may be acknowledged already. */
    ghost predicate Pruning(ack: int)
      reads this
    {
      && SenderTied() && S.Queued(snd, written, isn, room) && mss < U16
      && snd.lastack == ack && ack - 2 * U16 < snd.Start()
    }

    /** tcp_seg_free of a segment taken off a queue. */
    method FreeSeg(seg: S.TxSeg)
      modifies `sndQueueLen, `segsHeld, `buffersHeld
      ensures sndQueueLen == S.Drop(old(sndQueueLen), seg.clen)
      ensures segsHeld == old(segsHeld) - 1 && buffersHeld == old(buffersHeld) - seg.clen
    {
      sndQueueLen := (sndQueueLen - seg.clen) % 256;
      segsHeld := segsHeld - 1;
      buffersHeld := buffersHeld - seg.clen;
    }

    predicate CanFreeUnacked(ackno: int)
      reads this
    {
      unacked != [] && SeqLeq(W(unacked[0].seqno + unacked[0].Len()), ackno)
    }

    predicate CanFreeUnsent(ackno: int)
      reads this
    {
      unsent != [] && SeqLeq(W(unsent[0].seqno + unsent[0].Len()), ackno) && SeqLeq(ackno, sndMax)
    }

    lemma PruningTests(ack: int)
      requires Pruning(ack)
      ensures CanFreeUnacked(W(ack)) <==> snd.unacked != [] && snd.unacked[0].End() <= ack
      ensures snd.unacked == [] ==>
              (CanFreeUnsent(W(ack)) <==> snd.unsent != [] && snd.unsent[0].End() <= ack <= snd.max)
    {
      hide W;
      hide S.Queued;
      if snd.Queue() != [] {
        PruneTest(snd, written, isn, room, 0);
      }
    }

    /** What freeing the first segment does to the fields. */
    lemma FreeImage()
      requires SenderTied()
      ensures unacked != [] ==>
                var s' := S.TakeUnacked(snd);
                && WireSnd(s') == SenderFields().(unacked := unacked[1..],
                    queuelen := S.Drop(sndQueueLen, unacked[0].clen))
                && segsHeld - 1 == |s'.unacked| + |s'.unsent|
                && buffersHeld - unacked[0].clen == S.Buffers(s'.unacked) + S.Buffers(s'.unsent)
      ensures unsent != [] ==>
                var s' := S.TakeUnsent(snd);
                && WireSnd(s') == SenderFields().(unsent := unsent[1..],
                    queuelen := S.Drop(sndQueueLen, unsent[0].clen),
                                                  nxt := if |unsent| > 1 then unsent[1].seqno else sndNxt)
                && segsHeld - 1 == |s'.unacked| + |s'.unsent|
                && buffersHeld - unsent[0].clen == S.Buffers(s'.unacked) + S.Buffers(s'.unsent)
    {
      hide W;
      if unacked != [] {
        assert WireTx(snd.unacked[1..]) == unacked[1..];
      }
      if unsent != [] {
        assert WireTx(snd.unsent[1..]) == unsent[1..];
      }
    }

    method FreeFirstUnacked(ghost ack: int)
      requires Pruning(ack) && snd.unacked != [] && snd.unacked[0].End() <= ack
      modifies `unacked, `sndQueueLen, `segsHeld, `buffersHeld, `snd
      ensures Pruning(ack)
      ensures snd == S.TakeUnacked(old(snd))
    {
      hide W;
      hide S.Queued;
      hide S.Buffers;
      PruneStep(snd, S.TakeUnacked(snd), written, isn, room);
      FreeImage();
      hide WireTx;
      hide S.TakeUnsent;
      var seg := unacked[0];
      unacked := unacked[1..];
      FreeSeg(seg);
      snd := S.TakeUnacked(snd);
    }

    method FreeFirstUnsent(ghost ack: int)
      requires Pruning(ack) && snd.unacked == [] && snd.unsent != [] && snd.unsent[0].End() <= ack
      modifies `unsent, `sndNxt, `sndQueueLen, `segsHeld, `buffersHeld, `snd
      ensures Pruning(ack)
      ensures snd == S.TakeUnsent(old(snd))
    {
      hide W;
      hide S.Queued;
      hide S.Buffers;
      PruneStep(snd, S.TakeUnsent(snd), written, isn, room);
      FreeImage();
      hide WireTx;
      hide S.TakeUnacked;
      var seg := unsent[0];
      unsent := unsent[1..];
      FreeSeg(seg);
      if unsent != [] {
        sndNxt := unsent[0].seqno;
      }
      snd := S.TakeUnsent(snd);
    }

    method PruneUnacked(ackno: int, ghost ack: int)
      requires Pruning(ack) && ackno == W(ack)
      modifies `unacked, `sndQueueLen, `segsHeld, `buffersHeld, `snd
      ensures Pruning(ack)
      ensures snd == S.PruneUnacked(old(snd), ack)
    {
      hide Pruning;
      hide CanFreeUnacked;
      PruningTests(ack);
      while CanFreeUnacked(ackno)
        invariant Pruning(ack)
        invariant CanFreeUnacked(ackno) <==> snd.unacked != [] && snd.unacked[0].End() <= ack
        invariant S.PruneUnacked(snd, ack) == S.PruneUnacked(old(snd), ack)
        decreases |snd.unacked|
      {
        FreeFirstUnacked(ack);
        PruningTests(ack);
      }
    }

    /** The loop over unsent runs after every acknowledgement; it finds work only when all of unacked is
        acknowledged. */
    method PruneUnsent(ackno: int, ghost ack: int)
      requires ackno == W(ack)
      requires (Pruning(ack) && snd.unacked == []) || (!CanFreeUnsent(ackno) && S.PruneUnsent(snd, ack) == snd)
      modifies `unsent, `sndNxt, `sndQueueLen, `segsHeld, `buffersHeld, `snd
      ensures old(Pruning(ack)) ==> Pruning(ack)
      ensures old(snd.unacked != [] || !Pruning(ack)) ==> unchanged(this)
      ensures snd == S.PruneUnsent(old(snd), ack)
    {
      hide Pruning;
      hide CanFreeUnsent;
      if Pruning(ack) && snd.unacked == [] {
        PruningTests(ack);
      }
      while CanFreeUnsent(ackno)
        invariant old(Pruning(ack)) ==> Pruning(ack)
        invariant old(snd.unacked != [] || !Pruning(ack)) ==> unchanged(this) && !CanFreeUnsent(ackno)
        invariant old(Pruning(ack) && snd.unacked == []) ==>
                    && snd.unacked == []
                    && (CanFreeUnsent(ackno) <==> snd.unsent != [] && snd.unsent[0].End() <= ack <= snd.max)
        invariant S.PruneUnsent(snd, ack) == S.PruneUnsent(old(snd), ack)
        decreases |snd.unsent|
      {
        FreeFirstUnsent(ack);
        PruningTests(ack);
      }
    }

    /** News: the acknowledged bytes become free send buffer, and segments they fill are freed. */
    method Advance(ackno: int, ghost ack: int)
      requires SenderValid() && ackno == W(ack) && S.Advances(snd, ack)
      modifies `unacked, `lastAck, `sndBuf, `sndQueueLen, `segsHeld, `buffersHeld, `snd
      ensures Pruning(ack)
      ensures snd == S.PruneUnacked(S.Advance(old(snd), ack), ack)
    {
      hide W;
      hide S.Inv;
      hide S.Queued;
      StartIsNear(snd, written, isn, room);
      AckTests(snd, written, isn, room, ack);
      S.AdvanceKeeps(snd, ack, written, isn, room);
      sndBuf := (sndBuf + W(ackno - lastAck) % U16) % U16;
      lastAck := ackno;
      snd := S.Advance(snd, ack);
      PruneUnacked(ackno, ack);
    }

    /** When some of unacked is left, nothing unsent is freed. */
    lemma NoUnsentToFree(ack: int)
      requires Pruning(ack) && snd.unacked != [] && ack < snd.unacked[0].End()
      ensures !CanFreeUnsent(W(ack)) && S.PruneUnsent(snd, ack) == snd
    {
      hide W;
      hide S.Bytes;
      hide S.Buffers;
      S.NothingToPrune(snd, ack);
      if snd.unsent != [] {
        assert snd.Queue()[|snd.unacked|] == snd.unsent[0];
        S.TilesBounds(snd.Queue(), snd.Start(), snd.lbb);
        PruneTest(snd, written, isn, room, |snd.unacked|);
      }
    }

    /** An acknowledgement that is no news frees nothing unsent. */
    lemma NoNewsFreesNothing(ack: int)
      requires SenderValid() && -FAR < ack - snd.lastack < FAR && !S.Advances(snd, ack)
      ensures !CanFreeUnsent(W(ack)) && S.PruneUnsent(snd, ack) == snd
    {
      hide W;
      hide S.Bytes;
      hide S.Buffers;
      if ack <= snd.lastack {
        S.NothingToPrune(snd, ack);
      }
      if snd.unsent != [] {
        var q := snd.unsent[0];
        assert snd.Queue()[|snd.unacked|] == q;
        QueuedIsNear(snd, written, isn, room, |snd.unacked|);
        WireDifference(q.seqno, q.Len());
        WireComparisons(q.End(), ack);
        WireComparisons(ack, snd.max);
      }
    }

    /** The acknowledgement part of tcp_receive.  The number may be any within reach of 32-bit
        comparisons; fast says that this repeated acknowledgement starts a fast retransmission. */
    method ReceiveAck(ackno: int, fast: bool, ghost ack: int)
      requires SenderValid()
      requires ackno == W(ack) && -FAR < ack - snd.lastack < FAR
      modifies `unacked, `unsent, `lastAck, `sndNxt, `sndMax, `sndBuf, `sndQueueLen, `segsHeld, `buffersHeld, `snd
      ensures SenderValid()
      ensures snd == S.Ack(old(snd), ack, fast)
    {
      hide S.Inv;
      hide S.Queued;
      hide W;
      hide CanFreeUnsent;
      AckTests(snd, written, isn, room, ack);
      S.AckKeeps(snd, ack, fast, written, isn, room);
      if lastAck == ackno {
        if fast {
          ghost var s0 := snd;
          S.RexmitKeeps(snd, written, isn, room);
          var sent := TcpRexmit(true, 0);
        }
        NoNewsFreesNothing(ack);
      } else if SeqLt(lastAck, ackno) && SeqLeq(ackno, sndMax) {
        Advance(ackno, ack);
        S.PruneUnackedStops(S.Advance(old(snd), ack), ack);
        if snd.unacked != [] {
          NoUnsentToFree(ack);
        }
      } else {
        NoNewsFreesNothing(ack);
      }
      PruneUnsent(ackno, ack);
    }

    // -------------------------------------------------------------------------------------------
    // Writing

    /** tcp_segs_free. */
    method FreeSegs(q: seq<S.TxSeg>)
      modifies `segsHeld, `buffersHeld
      ensures segsHeld == old(segsHeld) - |q| && buffersHeld == old(buffersHeld) - S.Buffers(q)
    {
      var rest := q;
      while rest != []
        invariant segsHeld - |rest| == old(segsHeld) - |q|
        invariant buffersHeld - S.Buffers(rest) == old(buffersHeld) - S.Buffers(q)
      {
        segsHeld := segsHeld - 1;
        buffersHeld := buffersHeld - rest[0].clen;
        rest := rest[1..];
      }
    }

    /** Allocates one segment and its buffers.  memory allocations succeed before one fails; a segment
        whose buffers could not be allocated has none. */
    method AllocSeg(seqno: int, data: seq<byte>, copy: bool, memory: nat)
      returns (made: bool, complete: bool, seg: S.TxSeg)
      modifies `segsHeld, `buffersHeld
      ensures made <==> memory > 0
      ensures complete <==> memory >= 1 + S.BuffersFor(1, copy)
      ensures seg == S.TxSeg(seqno, data, if complete then S.BuffersFor(1, copy) else 0)
      ensures segsHeld == old(segsHeld) + (if made then 1 else 0)
      ensures buffersHeld == old(buffersHeld) + seg.clen
    {
      made, complete, seg := false, false, S.TxSeg(seqno, data, 0);
      if memory == 0 {
        return;
      }
      made := true;
      segsHeld := segsHeld + 1;
      if memory == 1 {
        return;
      }
      buffersHeld := buffersHeld + 1;
      if !copy {
        if memory == 2 {
          buffersHeld := buffersHeld - 1;
          return;
        }
        buffersHeld := buffersHeld + 1;
      }
      complete, seg := true, seg.(clen := S.BuffersFor(1, copy));
    }

    /** The loop of tcp_enqueue: cuts the data into new segments, or frees those it made. */
    method CutData(data: seq<byte>, copy: bool, memory: nat) returns (ok: bool, queue: seq<S.TxSeg>)
      requires SenderValid() && data != [] && sndQueueLen < S.SND_QUEUELEN
      modifies `segsHeld, `buffersHeld
      ensures ok <==> S.CutFits(snd, data, copy, memory)
      ensures ok ==> queue == WireTx(S.CutUp(data, snd.lbb, mss, copy))
      ensures ok ==>
                segsHeld == old(segsHeld) + |queue| && buffersHeld == old(buffersHeld) + S.BuffersFor(|queue|, copy)
      ensures !ok ==> segsHeld == old(segsHeld) && buffersHeld == old(buffersHeld)
    {
      hide SenderValid;
      hide CutSoFar;
      hide W;
      hide S.CutUp;
      hide S.CutRest;
      hide S.CutFits;
      hide WireTx;
      TiedCounters();
      assert S.Buffers([]) == 0;
      hide S.Buffers;
      hide S.BuffersFor;
      BuffersMore(0, copy);
      ok, queue := true, [];
      var left, seqno := data, sndLbb;
      var queueLen: nat, allocs: nat := sndQueueLen, memory;
      if mss > 0 {
        CutStart(data, snd.lbb, mss, copy);
      }
      while ok && (queue == [] || left != [])
        invariant |left| <= |data| && seqno == W(snd.lbb + |data| - |left|)
        invariant segsHeld == old(segsHeld) + |queue| && buffersHeld == old(buffersHeld) + S.Buffers(queue)
        invariant mss == 0 || queue == [] ==> left == data
        invariant mss > 0 && ok ==> CutSoFar(data, left, queue, snd.lbb, mss, copy)
        invariant ok ==> S.Buffers(queue) == S.BuffersFor(|queue|, copy)
        invariant ok ==> queueLen == sndQueueLen + S.BuffersFor(|queue|, copy) <= S.SND_QUEUELEN
        invariant ok ==> memory == allocs + |queue| + S.BuffersFor(|queue|, copy)
        invariant !ok ==> !S.CutFits(snd, data, copy, memory)
        decreases ok, S.SND_QUEUELEN - queueLen
      {
        ghost var n, before := snd.lbb + |data| - |left|, queue;
        var seglen := if |left| > mss then mss else |left|;
        if mss > 0 {
          CutCount(data, left, queue, snd.lbb, mss, copy);
          CutStep(data, left, queue, snd.lbb, mss, copy);
        }
        BuffersMore(|before|, copy);
        var made, complete, seg := AllocSeg(seqno, left[..seglen], copy, allocs);
        if made {
          S.BuffersSnoc(queue, seg);
          queue := queue + [seg];
        }
        if complete {
          queueLen := queueLen + S.BuffersFor(1, copy);
          allocs := allocs - 1 - S.BuffersFor(1, copy);
        }
        if !complete || queueLen > S.SND_QUEUELEN {
          S.TooMuch(snd, data, copy, memory, |before|, left, n);
          ok := false;
        } else {
          WireDifference(n, seglen);
          left := left[seglen..];
          seqno := W(seqno + seglen);
        }
      }
      if ok {
        CutEnd(data, queue, snd.lbb, mss, copy);
        S.CutDone(snd, data, copy, memory, |queue|);
      } else {
        FreeSegs(queue);
      }
    }

    lemma TiedCounters()
      requires SenderValid()
      ensures sndLbb == W(snd.lbb) && mss == snd.mss && sndQueueLen == snd.queuelen && sndBuf == snd.buf
    {
    }

    /** tcp_write on an established connection.  The copy flag says whether the data is copied; memory
        is how many allocations succeed before one fails.  A write that fails changes nothing: what it
        had allocated is freed. */
    method TcpWrite(data: seq<byte>, copy: bool, memory: nat) returns (ok: bool)
      requires SenderValid()
      modifies `unsent, `sndLbb, `sndBuf, `sndQueueLen, `segsHeld, `buffersHeld, `snd, `written
      ensures SenderValid()
      ensures ok <==> data == [] || S.CanWrite(old(snd), data, copy, memory)
      ensures snd == S.Write(old(snd), data, copy, memory)
      ensures written == if ok then old(written) + data else old(written)
      ensures !ok ==> unchanged(this)
    {
      hide S.Inv;
      hide W;
      hide S.CutUp;
      hide S.CutFits;
      TiedCounters();
      if data == [] {
        assert written + [] == written;
        return true;
      }
      if |data| > sndBuf || sndQueueLen >= S.SND_QUEUELEN {
        return false;
      }
      var queue;
      ok, queue := CutData(data, copy, memory);
      if ok {
        EnqueueNew(queue, data, copy, memory);
      }
    }

    /** The new segments at the end of the unsent queue, the first one merged into the last unsent one if
        that leaves it no longer than mss; its tcp_seg is freed then. */
    method AppendUnsent(queue: seq<S.TxSeg>)
      requires queue != []
      modifies `unsent, `segsHeld
      ensures unsent == S.Append(old(unsent), queue, mss)
      ensures segsHeld == old(segsHeld) - |queue| + |unsent| - |old(unsent)|
    {
      var n := |unsent|;
      if n > 0 && unsent[n - 1].Len() != 0 && unsent[n - 1].Len() + queue[0].Len() <= mss {
        unsent := unsent[..n - 1] + ([S.Merge(unsent[n - 1], queue[0])] + queue[1..]);
        segsHeld := segsHeld - 1;
      } else {
        unsent := unsent + queue;
      }
    }

    /** What a write does to the fields. */
    lemma WriteImage(queue: seq<S.TxSeg>, data: seq<byte>, copy: bool, memory: nat)
      requires SenderTied(|queue|, S.BuffersFor(|queue|, copy))
      requires data != [] && S.CanWrite(snd, data, copy, memory)
      requires queue == WireTx(S.CutUp(data, snd.lbb, mss, copy))
      ensures queue != [] && |data| <= sndBuf
      ensures WireSnd(S.Write(snd, data, copy, memory)) ==
              SenderFields().(unsent := S.Append(unsent, queue, mss),
                              lbb := W(sndLbb + |data|),
                              buf := sndBuf - |data|,
                              queuelen := sndQueueLen + S.BuffersFor(|queue|, copy))
      ensures buffersHeld == S.Buffers(S.Write(snd, data, copy, memory).unacked)
                             + S.Buffers(S.Write(snd, data, copy, memory).unsent)
    {
      hide W;
      hide S.CutUp;
      hide S.Append;
      hide WireTx;
      S.WriteFields(snd, data, copy, memory);
      WireTxAppend(snd.unsent, S.CutUp(data, snd.lbb, mss, copy), mss);
      WireDifference(snd.lbb, |data|);
    }

    method EnqueueNew(queue: seq<S.TxSeg>, data: seq<byte>, copy: bool, ghost memory: nat)
      requires SenderTied(|queue|, S.BuffersFor(|queue|, copy))
      requires S.Inv(snd, written, isn, room) && mss < U16
      requires data != [] && S.CanWrite(snd, data, copy, memory)
      requires queue == WireTx(S.CutUp(data, snd.lbb, mss, copy))
      modifies `unsent, `sndLbb, `sndBuf, `sndQueueLen, `segsHeld, `buffersHeld, `snd, `written
      ensures SenderValid()
      ensures snd == S.Write(old(snd), data, copy, memory) && written == old(written) + data
    {
      hide S.Inv;
      hide W;
      hide S.CanWrite;
      hide S.Append;
      hide S.Write;
      hide S.Buffers;
      hide WireTx;
      WriteImage(queue, data, copy, memory);
      S.WriteKeeps(snd, data, copy, memory, written, isn, room);
      ghost var s' := S.Write(snd, data, copy, memory);
      ghost var w' := written + data;
      var lbb, buf, len := W(sndLbb + |data|), sndBuf - |data|, sndQueueLen + S.BuffersFor(|queue|, copy);
      assert S.Inv(s', w', isn, room);
      assert WireSnd(s') == SenderFields().(unsent := S.Append(unsent, queue, mss), lbb := lbb, buf := buf,
             queuelen := len);
      AppendUnsent(queue);
      hide S.CutUp;
      hide S.BuffersFor;
      sndLbb, sndBuf, sndQueueLen, snd, written := lbb, buf, len, s', w';
    }

    // -------------------------------------------------------------------------------------------
    // Receiving

    /** A segment becomes the next bytes handed to the application. */
    method Accept(s: Seg, ghost u: Seg)
      requires ReceiverTied() && s == WireSeg(u)
      modifies `rcvNxt, `rcvWnd, `delivered, `rcv
      ensures ReceiverTied()
      ensures rcv == R.Accept(old(rcv), u)
    {
      WireDifference(rcv.nxt, u.len);
      rcvNxt := W(rcvNxt + s.len);
      rcvWnd := if rcvWnd < s.len then 0 else rcvWnd - s.len;
      delivered := delivered + s.data;
      rcv := R.Accept(rcv, u);
    }

    ghost predicate Draining()
      reads this
    {
      ReceiverTied() && R.Drainable(rcv)
    }

    predicate CanDeliver()
      reads this
    {
      ooseq != [] && ooseq[0].seqno == rcvNxt
    }

    lemma CanDeliverIsNext()
      requires Draining()
      ensures CanDeliver() <==> rcv.ooseq != [] && rcv.ooseq[0].seqno == rcv.nxt
    {
      hide W;
      if ooseq != [] {
        assert rcv.ooseq[0] in rcv.ooseq;
        WireComparisons(rcv.ooseq[0].seqno, rcv.nxt);
      }
    }

    method DeliverFirst()
      requires Draining() && rcv.ooseq != [] && rcv.ooseq[0].seqno == rcv.nxt
      modifies `rcvNxt, `rcvWnd, `delivered, `ooseq, `rcv
      ensures Draining()
      ensures rcv == R.Accept(old(rcv), old(rcv).ooseq[0]).(ooseq := old(rcv).ooseq[1..])
    {
      hide W;
      R.AcceptFirstKeeps(rcv);
      hide R.Drainable;
      ghost var u := rcv.ooseq[0];
      Accept(ooseq[0], u);
      ooseq := ooseq[1..];
      rcv := rcv.(ooseq := rcv.ooseq[1..]);
    }

    /** The loop that delivers queued segments that are in sequence now. */
    method DeliverQueued()
      requires Draining()
      modifies `rcvNxt, `rcvWnd, `delivered, `ooseq, `rcv
      ensures Draining()
      ensures rcv == R.Drain(old(rcv))
    {
      hide Draining;
      hide CanDeliver;
      CanDeliverIsNext();
      while CanDeliver()
        invariant Draining()
        invariant CanDeliver() <==> rcv.ooseq != [] && rcv.ooseq[0].seqno == rcv.nxt
        invariant R.Drain(rcv) == R.Drain(old(rcv))
        decreases |rcv.ooseq|
      {
        DeliverFirst();
        CanDeliverIsNext();
      }
    }

    /** An in-sequence segment: cut at the queue, accepted, and followed by what is queued next. */
    method ReceiveInSequence(inseg: Seg, ghost u: Seg)
      requires ReceiverValid() && inseg == WireSeg(u) && u.Sound() && u.seqno == rcv.nxt
      modifies `rcvNxt, `rcvWnd, `delivered, `ooseq, `rcv
      ensures ReceiverTied()
      ensures rcv == R.InSequence(old(rcv), u)
    {
      hide W;
      hide R.Drain;
      var s := inseg;
      CutAtQueueWire(u, rcv.ooseq, rcv.wnd);
      if ooseq != [] && SeqLeq(ooseq[0].seqno, W(s.seqno + s.len)) {
        s := CutTail(s, ooseq[0].seqno - s.seqno);
      }
      R.CutAcceptDrainable(rcv, u);
      Accept(s, R.CutAtQueue(u, rcv.ooseq));
      DeliverQueued();
    }

    /** The tests against the segment queued at index i. */
    lemma QueueTests(i: nat, s: Seg)
      requires ReceiverValid() && s.Sound() && rcv.nxt < s.seqno < rcv.nxt + rcv.wnd
      requires i < |rcv.ooseq|
      ensures W(s.seqno) == ooseq[i].seqno <==> s.seqno == rcv.ooseq[i].seqno
      ensures SeqLt(W(s.seqno), ooseq[i].seqno) <==> s.seqno < rcv.ooseq[i].seqno
      ensures SeqLt(ooseq[i].seqno, W(s.seqno)) <==> rcv.ooseq[i].seqno < s.seqno
      ensures SeqGt(W(s.seqno), ooseq[i].seqno) <==> s.seqno > rcv.ooseq[i].seqno
      ensures CutAt(WireSeg(s), ooseq[i].seqno) == WireSeg(R.CutAt(s, rcv.ooseq[i].seqno))
      ensures CutAt(ooseq[i], W(s.seqno)) == WireSeg(R.CutAt(rcv.ooseq[i], s.seqno))
    {
      hide W;
      var o := rcv.ooseq[i];
      assert o in rcv.ooseq;
      WireComparisons(s.seqno, o.seqno);
      WireComparisons(o.seqno, s.seqno);
      CutAtWire(s, o.seqno);
      CutAtWire(o, s.seqno);
    }

    /** The queue with the new segment at index i, the one before it and the new one cut to fit. */
    method InsertAt(i: nat, inseg: Seg, ghost s: Seg)
      requires ReceiverValid() && inseg == WireSeg(s) && s.Sound() && rcv.nxt < s.seqno < rcv.nxt + rcv.wnd
      requires i <= |ooseq|
      requires i > 0 ==> rcv.ooseq[i - 1].seqno < s.seqno
      requires i < |ooseq| ==> s.seqno < rcv.ooseq[i].seqno
      modifies `ooseq, `rcv
      ensures ReceiverTied()
      ensures rcv == old(rcv).(ooseq := R.CutBefore(old(rcv).ooseq, i, s) + [R.CutForNext(old(rcv).ooseq, i, s)]
              + old(rcv).ooseq[i..])
    {
      hide W;
      hide CutAt;
      hide R.CutAt;
      InsertImage(i, s);
      hide WireSegs;
      var t := if i < |ooseq| then CutAt(inseg, ooseq[i].seqno) else inseg;
      var before := if i > 0 then ooseq[..i - 1] + [CutAt(ooseq[i - 1], inseg.seqno)] else [];
      ooseq := before + [t] + ooseq[i..];
      rcv := rcv.(ooseq := R.CutBefore(rcv.ooseq, i, s) + [R.CutForNext(rcv.ooseq, i, s)] + rcv.ooseq[i..]);
    }

    lemma CutBeforeImage(i: nat, s: Seg)
      requires ReceiverValid() && s.Sound() && rcv.nxt < s.seqno < rcv.nxt + rcv.wnd
      requires i <= |ooseq|
      ensures WireSegs(R.CutBefore(rcv.ooseq, i, s))
           == if i > 0 then ooseq[..i - 1] + [CutAt(ooseq[i - 1], W(s.seqno))] else []
    {
      hide W;
      hide CutAt;
      hide R.CutAt;
      if i > 0 {
        QueueTests(i - 1, s);
      }
    }

    /** What insertion does to the queue. */
    lemma InsertImage(i: nat, s: Seg)
      requires ReceiverValid() && s.Sound() && rcv.nxt < s.seqno < rcv.nxt + rcv.wnd
      requires i <= |ooseq|
      ensures WireSegs(R.CutBefore(rcv.ooseq, i, s) + [R.CutForNext(rcv.ooseq, i, s)] + rcv.ooseq[i..])
           == (if i > 0 then ooseq[..i - 1] + [CutAt(ooseq[i - 1], W(s.seqno))] else [])
              + [if i < |ooseq| then CutAt(WireSeg(s), ooseq[i].seqno) else WireSeg(s)]
              + ooseq[i..]
    {
      hide W;
      hide R.QueueOk;
      hide CutAt;
      hide R.CutAt;
      hide R.CutBefore;
      if i < |ooseq| { QueueTests(i, s); }
      CutBeforeImage(i, s);
      WireSegsJoin(R.CutBefore(rcv.ooseq, i, s), [R.CutForNext(rcv.ooseq, i, s)], rcv.ooseq[i..]);
      assert WireSegs(rcv.ooseq[i..]) == ooseq[i..];
    }

    method ReplaceAt(i: nat, inseg: Seg, ghost s: Seg)
      requires ReceiverTied() && inseg == WireSeg(s) && i < |ooseq|
      modifies `ooseq, `rcv
      ensures ReceiverTied()
      ensures rcv == old(rcv).(ooseq := old(rcv).ooseq[i := s])
    {
      ooseq := ooseq[i := inseg];
      rcv := rcv.(ooseq := rcv.ooseq[i := s]);
    }

    /** An out-of-sequence segment is put in its place in the queue.  The walk looks at each queued
        segment for the same start, for a start above, and for the end of the queue. */
    method QueueSegment(inseg: Seg, memory: bool, ghost s: Seg)
      requires ReceiverValid() && inseg == WireSeg(s) && s.Sound() && rcv.nxt < s.seqno < rcv.nxt + rcv.wnd
      modifies `ooseq, `rcv
      ensures ReceiverTied()
      ensures rcv == old(rcv).(ooseq := R.Enqueue(old(rcv).ooseq, s, memory))
    {
      hide W;
      hide CutAt;
      hide SeqLt;
      hide SeqGt;
      hide R.QueueOk;
      hide R.CutBefore;
      hide R.CutForNext;
      hide R.Enqueue;
      var i := 0;
      if ooseq == [] {
        R.EnqueueAt(rcv.ooseq, s, memory, 0);
        if memory {
          InsertAt(0, inseg, s);
        }
        return;
      }
      while true
        invariant i < |ooseq| && unchanged(this)
        invariant forall k :: 0 <= k < i ==> rcv.ooseq[k].seqno < s.seqno
        decreases |ooseq| - i
      {
        QueueTests(i, s);
        if inseg.seqno == ooseq[i].seqno {
          R.EnqueueAt(rcv.ooseq, s, memory, i);
          if inseg.len > ooseq[i].len {
            if memory {
              ReplaceAt(i, inseg, s);
            }
          }
          return;
        }
        if i == 0 {
          if SeqLt(inseg.seqno, ooseq[i].seqno) {
            R.EnqueueAt(rcv.ooseq, s, memory, 0);
            if memory {
              InsertAt(0, inseg, s);
            }
            return;
          }
        } else {
          QueueTests(i - 1, s);
          if SeqLt(ooseq[i - 1].seqno, inseg.seqno) && SeqLt(inseg.seqno, ooseq[i].seqno) {
            R.EnqueueAt(rcv.ooseq, s, memory, i);
            if memory {
              InsertAt(i, inseg, s);
            }
            return;
          }
        }
        if i + 1 == |ooseq| && SeqGt(inseg.seqno, ooseq[i].seqno) {
          R.EnqueueAt(rcv.ooseq, s, memory, i + 1);
          if memory {
            InsertAt(i + 1, inseg, s);
          }
          return;
        }
        i := i + 1;
      }
    }

    /** The data part of tcp_receive.  The segment may start anywhere within reach of 32-bit
        comparisons; memory says whether a copy of it could be allocated if it is to be queued. */
    method ReceiveData(inseg: Packet, memory: bool, ghost u: Packet)
      requires ReceiverValid()
      requires inseg == WireSeg(u) && -FAR < u.seqno - rcv.nxt < FAR
      modifies `rcvNxt, `rcvWnd, `delivered, `ooseq, `rcv
      ensures ReceiverTied()
      ensures rcv == R.Receive(old(rcv), u, memory)
      ensures ReceiverValid() <==> !R.Overruns(old(rcv), u, memory)
    {
      R.ReceiveKeepsQueue(rcv, u, memory);
      R.ReceiveCases(rcv, u, memory);
      WindowOk(rcv);
      hide R.QueueOk;
      hide SeqLt;
      hide SeqGeq;
      hide R.Receive;
      hide R.InSequence;
      hide R.Enqueue;
      hide R.Overruns;
      hide R.TrimFront;
      hide W;
      if inseg.len > 0 {
        ReceiveTests(rcv, u);
        ghost var t := R.TrimFront(u, rcv.nxt);
        var s := inseg;
        if SeqLt(s.seqno, rcvNxt) && SeqLt(rcvNxt, W(s.seqno + s.len)) {
          var off := W(rcvNxt - s.seqno);
          s := Seg(rcvNxt, s.len - off, s.data[off..]);
        }
        if SeqGeq(s.seqno, rcvNxt) && SeqLt(s.seqno, W(rcvNxt + rcvWnd)) {
          if s.seqno == rcvNxt {
            ReceiveInSequence(s, t);
          } else {
            QueueSegment(s, memory, t);
          }
        }
      }
    }

    /** tcp_recved: the application took n bytes. */
    method TcpRecved(n: nat)
      requires ReceiverValid()
      modifies `rcvWnd, `rcv
      ensures ReceiverValid()
      ensures rcv == R.Recved(old(rcv), n)
    {
      rcvWnd := if rcvWnd + n > R.TCP_WND then R.TCP_WND else rcvWnd + n;
      rcv := R.Recved(rcv, n);
    }

    /** The part of tcp_slowtmr that drops the out-of-sequence queue. */
    method DropQueue()
      requires ReceiverTied() && rcv.wnd <= R.TCP_WND
      modifies `ooseq, `rcv
      ensures ReceiverValid()
      ensures rcv == R.DropQueue(old(rcv))
    {
      ooseq := [];
      rcv := R.DropQueue(rcv);
    }
  }

  lemma WindowOk(r: R.Rcv)
    requires R.QueueOk(r)
    ensures r.wnd <= R.TCP_WND
  {
  }

  /** The cut of a segment that reaches a number, in 32 bits. */
  function CutAt(s: Seg, limit: int): Seg {
    if SeqGt(W(s.seqno + s.len), limit) then CutTail(s, limit - s.seqno) else s
  }

  lemma CutAtWire(s: Seg, limit: int)
    requires s.Sound() && -FAR < s.seqno - limit < FAR
    ensures CutAt(WireSeg(s), W(limit)) == WireSeg(R.CutAt(s, limit))
  {
    hide W;
    WireDifference(s.seqno, s.len);
    WireComparisons(s.End(), limit);
    CutTailWire(s, limit);
  }

  lemma WireSegsJoin(a: seq<Seg>, b: seq<Seg>, c: seq<Seg>)
    ensures WireSegs(a + b + c) == WireSegs(a) + WireSegs(b) + WireSegs(c)
  {
  }

  /** The tests of tcp_receive in 32 bits, before and after the front is trimmed. */
  lemma ReceiveTests(r: R.Rcv, u: Packet)
    requires r.wnd <= R.TCP_WND && u.len > 0 && -FAR < u.seqno - r.nxt < FAR
    ensures var w, nxt, t := WireSeg(u), W(r.nxt), R.TrimFront(u, r.nxt);
            && (SeqLt(w.seqno, nxt) && SeqLt(nxt, W(w.seqno + w.len)) <==> u.seqno < r.nxt < u.End())
            && (u.seqno < r.nxt < u.End() ==>
                  var off := W(nxt - w.seqno);
                  off <= w.len && WireSeg(t) == Seg(nxt, w.len - off, w.data[off..]))
            && (!(u.seqno < r.nxt < u.End()) ==> WireSeg(t) == w)
            && t.Sound()
            && (SeqGeq(W(t.seqno), nxt) && SeqLt(W(t.seqno), W(nxt + r.wnd)) <==> r.nxt <= t.seqno < r.nxt + r.wnd)
            && (W(t.seqno) == nxt <==> t.seqno == r.nxt)
  {
    hide W;
    var t := R.TrimFront(u, r.nxt);
    WireDifference(u.seqno, u.len);
    WireDifference(r.nxt, r.wnd);
    WireDifference(r.nxt, u.seqno);
    WireComparisons(u.seqno, r.nxt);
    WireComparisons(r.nxt, u.End());
    WireComparisons(t.seqno, r.nxt);
    WireComparisons(t.seqno, r.nxt + r.wnd);
    if u.seqno < r.nxt < u.End() {
      WireSmall(r.nxt - u.seqno);
    }
  }

  /** Cutting commutes with taking images. */
  lemma CutTailWire(s: Seg, limit: int)
    ensures CutTail(WireSeg(s), W(limit) - W(s.seqno)) == WireSeg(CutTail(s, limit - s.seqno))
  {
    WireLow(limit, s.seqno);
    hide W;
  }

  /** Taking images does not change the 16 low bits of a difference. */
  lemma WireLow(a: int, b: int)
    ensures (W(a) - W(b)) % U16 == (a - b) % U16
  {
    var k := a / U32 - b / U32;
    assert W(a) - W(b) == a - b - U16 * (U16 * k);
    LowTurns(a - b, U16 * k);
  }

  lemma LowTurns(x: int, k: int)
    ensures (x - U16 * k) % U16 == x % U16
  {
  }

  lemma CutAtQueueWire(s: Seg, q: seq<Seg>, wnd: nat)
    requires s.Sound() && wnd <= R.TCP_WND
    requires q != [] ==> s.seqno < q[0].seqno < s.seqno + wnd
    ensures R.CutAtQueue(s, q).Sound()
    ensures var w, wq := WireSeg(s), WireSegs(q);
            WireSeg(R.CutAtQueue(s, q)) ==
            if wq != [] && SeqLeq(wq[0].seqno, W(w.seqno + w.len)) then CutTail(w, wq[0].seqno - w.seqno) else w
  {
    hide W;
    R.CutAtQueueSound(s, q);
    if q != [] {
      WireDifference(s.seqno, s.len);
      WireComparisons(q[0].seqno, s.End());
      CutTailWire(s, q[0].seqno);
    }
  }

  lemma WireRestAll(data: seq<byte>, seqno: int, mss: nat, copy: bool)
    requires mss > 0 && data != []
    ensures WireTx(S.CutUp(data, seqno, mss, copy)) == [] + WireTx(S.CutRest(data, seqno, mss, copy))
  {
  }

  lemma WireRestStep(left: seq<byte>, seqno: int, mss: nat, copy: bool)
    requires mss > 0 && left != []
    ensures var n := if |left| > mss then mss else |left|;
            WireTx(S.CutRest(left, seqno, mss, copy)) ==
            [S.TxSeg(W(seqno), left[..n], S.BuffersFor(1, copy))] + WireTx(S.CutRest(left[n..], seqno + n, mss, copy))
  {
    hide S.CutRest;
    var n := if |left| > mss then mss else |left|;
    S.CutRestStep(left, seqno, mss, copy);
    WireTxJoin([S.TxSeg(seqno, left[..n], S.BuffersFor(1, copy))], S.CutRest(left[n..], seqno + n, mss, copy));
  }

  /** The segments made so far, and those still to be made, are those of CutUp. */
  ghost predicate CutSoFar(data: seq<byte>, left: seq<byte>, queue: seq<S.TxSeg>, seqno: int, mss: nat, copy: bool)
    requires mss > 0
  {
    WireTx(S.CutUp(data, seqno, mss, copy)) == queue + WireTx(S.CutRest(left, seqno + |data| - |left|, mss, copy))
  }

  lemma CutStart(data: seq<byte>, seqno: int, mss: nat, copy: bool)
    requires mss > 0 && data != []
    ensures CutSoFar(data, data, [], seqno, mss, copy)
  {
    WireRestAll(data, seqno, mss, copy);
  }

  lemma CutStep(data: seq<byte>, left: seq<byte>, queue: seq<S.TxSeg>, seqno: int, mss: nat, copy: bool)
    requires mss > 0 && left != [] && CutSoFar(data, left, queue, seqno, mss, copy)
    ensures var n := if |left| > mss then mss else |left|;
            var s := S.TxSeg(W(seqno + |data| - |left|), left[..n], S.BuffersFor(1, copy));
            CutSoFar(data, left[n..], queue + [s], seqno, mss, copy)
  {
    hide W;
    hide WireTx;
    hide S.CutUp;
    hide S.CutRest;
    hide S.BuffersFor;
    var n, at := if |left| > mss then mss else |left|, seqno + |data| - |left|;
    WireRestStep(left, at, mss, copy);
    JoinCons(queue, S.TxSeg(W(at), left[..n], S.BuffersFor(1, copy)), WireTx(S.CutRest(left[n..], at + n, mss, copy)));
  }

  lemma CutCount(data: seq<byte>, left: seq<byte>, queue: seq<S.TxSeg>, seqno: int, mss: nat, copy: bool)
    requires mss > 0 && CutSoFar(data, left, queue, seqno, mss, copy)
    ensures |S.CutUp(data, seqno, mss, copy)| == |queue| + |S.CutRest(left, seqno + |data| - |left|, mss, copy)|
  {
  }

  lemma CutEnd(data: seq<byte>, queue: seq<S.TxSeg>, seqno: int, mss: nat, copy: bool)
    requires mss > 0 && CutSoFar(data, [], queue, seqno, mss, copy)
    ensures queue == WireTx(S.CutUp(data, seqno, mss, copy))
  {
    WireRestDone(seqno + |data|, mss, copy);
  }

  lemma WireRestDone(seqno: int, mss: nat, copy: bool)
    requires mss > 0
    ensures WireTx(S.CutRest([], seqno, mss, copy)) == []
  {
  }

  /** Appending commutes with taking images. */
  lemma WireTxAppend(unsent: seq<S.TxSeg>, queue: seq<S.TxSeg>, mss: nat)
    requires queue != []
    ensures WireTx(S.Append(unsent, queue, mss)) == S.Append(WireTx(unsent), WireTx(queue), mss)
  {
    var n := |unsent|;
    if n > 0 && unsent[n - 1].Len() != 0 && unsent[n - 1].Len() + queue[0].Len() <= mss {
      WireTxJoin([S.Merge(unsent[n - 1], queue[0])], queue[1..]);
      WireTxJoin(unsent[..n - 1], [S.Merge(unsent[n - 1], queue[0])] + queue[1..]);
      assert WireTx(unsent[..n - 1]) == WireTx(unsent)[..n - 1];
      assert WireTx(queue[1..]) == WireTx(queue)[1..];
      assert WireTx([S.Merge(unsent[n - 1], queue[0])]) == [S.Merge(WireTx(unsent)[n - 1], WireTx(queue)[0])];
    } else {
      WireTxJoin(unsent, queue);
    }
  }

  lemma BuffersMore(n: nat, copy: bool)
    ensures S.BuffersFor(0, copy) == 0 && S.BuffersFor(1, copy) > 0
    ensures S.BuffersFor(n + 1, copy) == S.BuffersFor(n, copy) + S.BuffersFor(1, copy)
  {
  }

  lemma SendFirstShorter(s: S.Snd)
    requires s.unsent != []
    ensures |S.SendFirst(s).unsent| < |s.unsent|
  {
  }

  lemma JoinCons<T>(a: seq<T>, x: T, b: seq<T>)
    ensures a + ([x] + b) == a + [x] + b
  {
  }

  /** A queued segment ends less than 2^17 above the last acknowledged number, and starts less than
      2^16 below it. */
  lemma QueuedIsNear(s: S.Snd, written: seq<byte>, isn: int, room: nat, i: nat)
    requires S.Inv(s, written, isn, room) && s.mss < U16
    requires i < |s.Queue()|
    ensures s.lastack - U16 < s.Queue()[i].seqno < s.Queue()[i].End()
    ensures s.lastack < s.Queue()[i].End() <= s.lbb < s.lastack + U16
  {
    hide S.Bytes;
    hide S.Buffers;
    S.TilesBounds(s.Queue(), s.Start(), s.lbb);
    assert s.Queue()[0] in s.Queue();
  }

  lemma WindowTest(start: int, ack: int, len: nat)
    requires 0 <= start + len - ack < U32
    ensures W(W(W(start) - W(ack)) + len) == start + len - ack
    ensures W(W(start) + len) == W(start + len)
  {
    hide W;
    WireDifference(start, ack);
    WireDifference(start - ack, len);
    WireDifference(start, len);
    WireSmall(start + len - ack);
  }

  /** The test of tcp_output in 32 bits, for the first unsent segment. */
  lemma EndInWindow(s: S.Snd, written: seq<byte>, isn: int, room: nat)
    requires S.Inv(s, written, isn, room) && s.mss < U16
    requires s.unsent != []
    ensures var q := s.unsent[0];
            && W(W(W(q.seqno) - W(s.lastack)) + q.Len()) == q.End() - s.lastack
            && W(W(q.seqno) + q.Len()) == W(q.End())
            && Near(s.max, q.End())
            && q.Len() > 0
  {
    hide W;
    hide S.Tiles;
    var q := s.unsent[0];
    assert s.Queue()[|s.unacked|] == q;
    QueuedIsNear(s, written, isn, room, |s.unacked|);
    WindowTest(q.seqno, s.lastack, q.Len());
  }

  lemma WireTxJoin(a: seq<S.TxSeg>, b: seq<S.TxSeg>)
    ensures WireTx(a + b) == WireTx(a) + WireTx(b)
  {
  }

  lemma RexmitFields(s: S.Snd)
    requires s.unacked != []
    ensures S.Rexmit(s) == s.(unacked := [], unsent := s.unacked + s.unsent, nxt := s.unacked[0].seqno)
  {
  }

  /** The test of the pruning loops in 32 bits. */
  lemma PruneTest(s: S.Snd, written: seq<byte>, isn: int, room: nat, i: nat)
    requires S.Queued(s, written, isn, room) && s.mss < U16 && s.lastack - 2 * U16 < s.Start()
    requires i < |s.Queue()|
    ensures var q := s.Queue()[i];
            && (SeqLeq(W(W(q.seqno) + q.Len()), W(s.lastack)) <==> q.End() <= s.lastack)
            && SeqLeq(W(s.lastack), W(s.max))
            && s.lastack <= s.max
  {
    hide W;
    var q := s.Queue()[i];
    S.TilesBounds(s.Queue(), s.Start(), s.lbb);
    WireDifference(q.seqno, q.Len());
    WireComparisons(q.End(), s.lastack);
    WireComparisons(s.lastack, s.max);
  }

  lemma PruneStep(s: S.Snd, s': S.Snd, written: seq<byte>, isn: int, room: nat)
    requires S.Queued(s, written, isn, room)
    requires s.Queue() != [] && s.Queue()[0].End() <= s.lastack
    requires (s.unacked != [] && s' == S.TakeUnacked(s)) || (s.unacked == [] && s' == S.TakeUnsent(s))
    ensures S.Queued(s', written, isn, room)
    ensures s.Start() <= s'.Start()
  {
    assert s'.Queue() == s.Queue()[1..];
    S.DropFirstKeeps(s, s', written, isn, room);
  }

  /** The tests of an acknowledgement in 32 bits, and the 16 bits of pcb->acked. */
  lemma AckTests(s: S.Snd, written: seq<byte>, isn: int, room: nat, ack: int)
    requires S.Inv(s, written, isn, room) && s.mss < U16
    requires -FAR < ack - s.lastack < FAR
    ensures W(s.lastack) == W(ack) <==> s.lastack == ack
    ensures (SeqLt(W(s.lastack), W(ack)) && SeqLeq(W(ack), W(s.max))) <==> S.Advances(s, ack)
    ensures S.Advances(s, ack) ==> W(W(ack) - W(s.lastack)) % U16 == ack - s.lastack
  {
    hide W;
    hide S.Tiles;
    hide S.Bytes;
    WireComparisons(s.lastack, ack);
    WireComparisons(ack, s.max);
    if S.Advances(s, ack) {
      WireDifference(ack, s.lastack);
      WireSmall(ack - s.lastack);
    }
  }

  lemma StartIsNear(s: S.Snd, written: seq<byte>, isn: int, room: nat)
    requires S.Inv(s, written, isn, room) && s.mss < U16
    ensures s.lastack - U16 < s.Start()
    ensures s.max <= s.lbb < s.lastack + U16
  {
    hide S.Tiles;
    hide S.Bytes;
    hide S.Buffers;
    if s.Queue() != [] {
      QueuedIsNear(s, written, isn, room, 0);
    }
  }
}
