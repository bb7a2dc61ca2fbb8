/**
 * One sender and one receiver joined by a network that loses, duplicates, delays and reorders.
 * Whatever the network, the timers, the memory and the application do, the bytes delivered are a
 * prefix of the bytes written, and the sender still holds every written byte that is not delivered.
 */
module Stream {
  import opened Segments
  import S = Sender
  import R = Receiver

  /** Both ends, every segment and every acknowledgement ever sent, and the bytes ever written.  The
      network may hand over any segment in net, any number of times and in any order, or never. */
  datatype System = System(
    snd: S.Snd,
    rcv: R.Rcv,
    net: set<Seg>,
    acks: set<int>,
    written: seq<byte>)

  datatype Step =
    | Write(data: seq<byte>, copy: bool, allocs: nat)
    | Output(wnd: nat)
    | Retransmit(wnd: nat)
    | AckArrives(ack: int, fast: bool)
    | SegmentArrives(s: Seg, memory: bool)
    | SendAck
    | Recved(n: nat)
    | DropQueue

  function Elements(q: seq<Seg>): set<Seg> { set s | s in q }

  function SendAll(x: System, wnd: nat): System {
    x.(snd := S.Output(x.snd, wnd), net := x.net + Elements(S.Sent(x.snd, wnd)))
  }

  /** One step.  An arrival of something that was never sent is no step. */
  function Next(x: System, step: Step): System {
    match step
    case Write(data, copy, memory) =>
      x.(snd := S.Write(x.snd, data, copy, memory),
         written := if S.CanWrite(x.snd, data, copy, memory) then x.written + data else x.written)
    case Output(wnd) => SendAll(x, wnd)
    case Retransmit(wnd) =>
      if x.snd.unacked == [] then x else SendAll(x.(snd := S.Rexmit(x.snd)), wnd)
    case AckArrives(ack, fast) =>
      if ack in x.acks then x.(snd := S.Ack(x.snd, ack, fast)) else x
    case SegmentArrives(s, memory) =>
      if s in x.net && s.len == |s.data| < U16 then x.(rcv := R.Receive(x.rcv, s, memory)) else x
    case SendAck => x.(acks := x.acks + {x.rcv.nxt})
    case Recved(n) => x.(rcv := R.Recved(x.rcv, n))
    case DropQueue => x.(rcv := R.DropQueue(x.rcv))
  }

  function Run(x: System, steps: seq<Step>): System
    decreases |steps|
  {
    if steps == [] then x else Run(Next(x, steps[0]), steps[1..])
  }

  /** A connection just after the handshake, with room bytes of send buffer. */
  function Established(isn: int, room: nat, mss: nat): System {
    System(S.Fresh(isn, room, mss), R.Rcv(isn, R.TCP_WND, [], []), {}, {}, [])
  }

  // ---------------------------------------------------------------------------------------------
  // The invariant

  /** One segment contains the start of another strictly inside. */
  predicate Straddles(a: Seg, b: Seg) {
    a.seqno < b.seqno < a.End()
  }

  /** A sent segment against a queued one: neither straddles the other, and a sent segment with the
      same start is an earlier, shorter version. */
  predicate Fits(a: Seg, q: S.TxSeg) {
    && !Straddles(a, q.Wire())
    && !Straddles(q.Wire(), a)
    && (a.seqno == q.seqno ==> a.End() <= q.End())
  }

  ghost predicate NetOk(net: set<Seg>, sent: seq<byte>, isn: int) {
    && (forall a <- net :: a.SliceOf(sent, isn))
    && (forall a, b :: a in net && b in net ==> !Straddles(a, b))
  }

  ghost predicate NetFits(net: set<Seg>, q: seq<S.TxSeg>) {
    forall a, i :: a in net && 0 <= i < |q| ==> Fits(a, q[i])
  }

  ghost predicate StartsInNet(net: set<Seg>, seqno: int) {
    exists a :: a in net && a.seqno == seqno
  }

  /** The bytes that have been sent at least once. */
  function SentBytes(x: System, isn: int): seq<byte>
    requires 0 <= x.snd.max - isn <= |x.written|
  {
    x.written[..x.snd.max - isn]
  }

  ghost predicate Inv(x: System, isn: int, room: nat) {
    && S.Inv(x.snd, x.written, isn, room)
    && isn <= x.snd.max <= isn + |x.written|
    && R.Inv(x.rcv, SentBytes(x, isn), isn)
    && x.snd.mss < U16
    && x.snd.lastack <= x.rcv.nxt
    && (forall a <- x.acks :: a <= x.rcv.nxt)
    && NetOk(x.net, SentBytes(x, isn), isn)
    && NetFits(x.net, x.snd.Queue())
    && (forall o <- x.rcv.ooseq :: StartsInNet(x.net, o.seqno))
  }

  // ---------------------------------------------------------------------------------------------
  // The sender's steps

  /** Pieces of a stream are pieces of every longer stream. */
  lemma MoreIsSent(r: R.Rcv, net: set<Seg>, sent: seq<byte>, sent': seq<byte>, isn: int)
    requires R.Inv(r, sent, isn) && NetOk(net, sent, isn) && sent <= sent'
    ensures R.Inv(r, sent', isn) && NetOk(net, sent', isn)
  {
    forall s: Seg | s.SliceOf(sent, isn) ensures s.SliceOf(sent', isn) {
      assert sent'[s.seqno - isn..s.End() - isn] == sent[s.seqno - isn..s.End() - isn];
    }
  }

  /** Each queued segment after a write is an old one, the last old one grown, or starts at or after
      the old end of the queue. */
  lemma WriteShape(s: S.Snd, data: seq<byte>, copy: bool, memory: nat, i: nat)
    requires s.mss > 0 && data != [] && S.CanWrite(s, data, copy, memory)
    requires S.Tiles(s.Queue(), s.Start(), s.lbb)
    requires i < |S.Write(s, data, copy, memory).Queue()|
    ensures var q := S.Write(s, data, copy, memory).Queue()[i];
            || s.lbb <= q.seqno
            || exists k :: 0 <= k < |s.Queue()| && s.Queue()[k].seqno == q.seqno &&
                           (s.Queue()[k] == q || (s.Queue()[k].End() == s.lbb && s.lbb <= q.End()))
  {
    hide S.CanWrite;
    hide S.CutUp;
    hide S.Buffers;
    hide S.Bytes;
    S.WriteFields(s, data, copy, memory);
    hide S.Write;
    var queue := S.CutUp(data, s.lbb, s.mss, copy);
    S.CutUpTiles(data, s.lbb, s.mss, copy);
    S.TilesBounds(queue, s.lbb, s.lbb + |data|);
    var q' := S.Write(s, data, copy, memory).Queue();
    var n := |s.Queue()|;
    if i < n {
      assert s.Queue()[i].seqno == q'[i].seqno;
      if s.Queue()[i] != q'[i] {
        assert i == n - 1;
        var mid := S.TilesSplit(s.Queue(), n, s.Start(), s.lbb);
        assert s.Queue()[n..] == [];
      }
    } else {
      assert q'[i] in queue;
    }
  }

  lemma WriteFits(x: System, data: seq<byte>, copy: bool, memory: nat, isn: int, room: nat)
    requires Inv(x, isn, room)
    requires data != [] && S.CanWrite(x.snd, data, copy, memory)
    ensures NetFits(x.net, S.Write(x.snd, data, copy, memory).Queue())
  {
    var q' := S.Write(x.snd, data, copy, memory).Queue();
    forall a, i | a in x.net && 0 <= i < |q'| ensures Fits(a, q'[i]) {
      WriteShape(x.snd, data, copy, memory, i);
      if q'[i].seqno < x.snd.lbb {
        var k :| 0 <= k < |x.snd.Queue()| && x.snd.Queue()[k].seqno == q'[i].seqno &&
                 (x.snd.Queue()[k] == q'[i] || (x.snd.Queue()[k].End() == x.snd.lbb && x.snd.lbb <= q'[i].End()));
        assert Fits(a, x.snd.Queue()[k]);
      }
    }
  }

  lemma WriteStep(x: System, data: seq<byte>, copy: bool, memory: nat, isn: int, room: nat)
    requires Inv(x, isn, room)
    ensures Inv(Next(x, Write(data, copy, memory)), isn, room)
  {
    hide R.Inv;
    hide S.Inv;
    hide NetOk;
    hide NetFits;
    hide S.CanWrite;
    hide S.CutUp;
    hide S.Append;
    S.WriteKeeps(x.snd, data, copy, memory, x.written, isn, room);
    assert x.written + [] == x.written;
    var x' := Next(x, Write(data, copy, memory));
    assert SentBytes(x', isn) == SentBytes(x, isn);
    if data != [] && S.CanWrite(x.snd, data, copy, memory) {
      WriteFits(x, data, copy, memory, isn, room);
    }
  }

  lemma SliceOfPrefix(s: Seg, stream: seq<byte>, n: nat, isn: int)
    requires s.SliceOf(stream, isn) && s.End() - isn <= n <= |stream|
    ensures s.SliceOf(stream[..n], isn)
  {
    assert stream[..n][s.seqno - isn..s.End() - isn] == stream[s.seqno - isn..s.End() - isn];
  }

  lemma TilesFit(q: seq<S.TxSeg>, i: nat, lo: int, hi: int)
    requires S.Tiles(q, lo, hi) && i < |q|
    ensures forall k :: 0 <= k < |q| ==> Fits(q[i].Wire(), q[k])
  {
    S.TilesBounds(q, lo, hi);
  }

  /** A queued segment that has been sent is a sound piece of what was sent, and no queued segment
      straddles another. */
  lemma QueuedIsSlice(x: System, i: nat, isn: int, room: nat)
    requires Inv(x, isn, room) && i < |x.snd.Queue()| && x.snd.Queue()[i].End() <= x.snd.max
    ensures x.snd.Queue()[i].Wire().SliceOf(SentBytes(x, isn), isn)
    ensures forall k :: 0 <= k < |x.snd.Queue()| ==> Fits(x.snd.Queue()[i].Wire(), x.snd.Queue()[k])
  {
    hide R.Inv;
    hide NetOk;
    hide NetFits;
    hide StartsInNet;
    hide S.Tiles;
    hide S.Bytes;
    var q, lo := x.snd.Queue(), x.snd.Start();
    assert q[i].Len() < U16 by { assert q[i] in q; }
    assert x.written[lo - isn..] == x.written[lo - isn..x.snd.lbb - isn];
    S.TilesSlices(q, i, lo, x.snd.lbb, x.written, isn);
    TilesFit(q, i, lo, x.snd.lbb);
    SliceOfPrefix(q[i].Wire(), x.written, x.snd.max - isn, isn);
  }

  /** The sender's part of an output step. */
  lemma OutputMoves(x: System, wnd: nat, isn: int, room: nat)
    requires Inv(x, isn, room)
    ensures var x' := x.(snd := S.Output(x.snd, wnd)); Inv(x', isn, room) && x'.snd.Queue() == x.snd.Queue()
  {
    S.OutputKeeps(x.snd, wnd, x.written, isn, room);
    var x' := x.(snd := S.Output(x.snd, wnd));
    MoreIsSent(x.rcv, x.net, SentBytes(x, isn), SentBytes(x', isn), isn);
  }

  /** A segment on its way that is one of the queued ones, and has been counted as sent. */
  ghost predicate FromQueue(x: System, a: Seg) {
    exists i :: 0 <= i < |x.snd.Queue()| && a == x.snd.Queue()[i].Wire() && a.End() <= x.snd.max
  }

  lemma FromQueueFits(x: System, a: Seg, isn: int, room: nat)
    requires Inv(x, isn, room) && FromQueue(x, a)
    ensures a.SliceOf(SentBytes(x, isn), isn)
    ensures forall k :: 0 <= k < |x.snd.Queue()| ==> Fits(a, x.snd.Queue()[k])
    ensures forall b :: b in x.net || FromQueue(x, b) ==> !Straddles(a, b) && !Straddles(b, a)
  {
    var q := x.snd.Queue();
    var i :| 0 <= i < |q| && a == q[i].Wire() && a.End() <= x.snd.max;
    QueuedIsSlice(x, i, isn, room);
    forall b | b in x.net || FromQueue(x, b) ensures !Straddles(a, b) && !Straddles(b, a) {
      if b in x.net {
        assert Fits(b, q[i]);
      } else {
        var j :| 0 <= j < |q| && b == q[j].Wire() && b.End() <= x.snd.max;
        assert Fits(a, q[j]);
      }
    }
  }

  /** Adding queued segments to the network. */
  lemma NetGrows(x: System, more: set<Seg>, isn: int, room: nat)
    requires Inv(x, isn, room)
    requires forall a <- more :: FromQueue(x, a)
    ensures Inv(x.(net := x.net + more), isn, room)
  {
    forall a | a in more
      ensures a.SliceOf(SentBytes(x, isn), isn)
      ensures forall k :: 0 <= k < |x.snd.Queue()| ==> Fits(a, x.snd.Queue()[k])
      ensures forall b :: b in x.net + more ==> !Straddles(a, b) && !Straddles(b, a)
    {
      FromQueueFits(x, a, isn, room);
    }
    StartsInLargerNet(x.rcv, x.net, x.net + more);
    ReplaceNet(x, x.net + more, isn, room);
  }

  lemma StartsInLargerNet(r: R.Rcv, net: set<Seg>, net': set<Seg>)
    requires net <= net' && forall o <- r.ooseq :: StartsInNet(net, o.seqno)
    ensures forall o <- r.ooseq :: StartsInNet(net', o.seqno)
  {
    forall o | o in r.ooseq ensures StartsInNet(net', o.seqno) {
      assert StartsInNet(net, o.seqno);
      var a :| a in net && a.seqno == o.seqno;
      assert a in net';
    }
  }

  lemma ReplaceNet(x: System, net: set<Seg>, isn: int, room: nat)
    requires Inv(x, isn, room)
    requires NetOk(net, SentBytes(x, isn), isn) && NetFits(net, x.snd.Queue())
    requires forall o <- x.rcv.ooseq :: StartsInNet(net, o.seqno)
    ensures Inv(x.(net := net), isn, room)
  {
    hide R.Inv;
    hide S.Inv;
    hide NetOk;
    hide NetFits;
    hide StartsInNet;
  }

  lemma OutputStep(x: System, wnd: nat, isn: int, room: nat)
    requires Inv(x, isn, room)
    ensures Inv(SendAll(x, wnd), isn, room)
  {
    OutputMoves(x, wnd, isn, room);
    S.SentIsQueued(x.snd, wnd, x.written, isn, room);
    var x' := x.(snd := S.Output(x.snd, wnd));
    forall a | a in S.Sent(x.snd, wnd) ensures FromQueue(x', a) {
      var seg :| seg in x.snd.Queue() && a == seg.Wire();
      var i :| 0 <= i < |x.snd.Queue()| && x.snd.Queue()[i] == seg;
    }
    NetGrows(x', Elements(S.Sent(x.snd, wnd)), isn, room);
  }

  lemma RexmitStep(x: System, isn: int, room: nat)
    requires Inv(x, isn, room)
    ensures Inv(x.(snd := S.Rexmit(x.snd)), isn, room)
  {
    hide R.Inv;
    hide NetOk;
    hide NetFits;
    hide S.Rexmit;
    S.RexmitKeeps(x.snd, x.written, isn, room);
    ReplaceSender(x, S.Rexmit(x.snd), isn, room);
  }

  /** A sender that has sent no more and queues no more may take the place of another. */
  lemma ReplaceSender(x: System, s: S.Snd, isn: int, room: nat)
    requires Inv(x, isn, room)
    requires S.Inv(s, x.written, isn, room) && s.mss == x.snd.mss && s.max == x.snd.max && s.lastack <= x.rcv.nxt
    requires NetFits(x.net, s.Queue())
    ensures Inv(x.(snd := s), isn, room)
  {
    hide R.Inv;
    hide NetOk;
    hide S.Tiles;
    hide NetFits;
    hide StartsInNet;
    hide S.Inv;
  }

  lemma NetFitsSuffix(net: set<Seg>, q: seq<S.TxSeg>, n: nat)
    requires NetFits(net, q) && n <= |q|
    ensures NetFits(net, q[n..])
  {
  }

  lemma AckStep(x: System, ack: int, fast: bool, isn: int, room: nat)
    requires Inv(x, isn, room)
    requires ack in x.acks
    ensures Inv(x.(snd := S.Ack(x.snd, ack, fast)), isn, room)
  {
    hide R.Inv;
    hide S.Inv;
    hide NetOk;
    hide NetFits;
    hide S.Ack;
    S.AckKeeps(x.snd, ack, fast, x.written, isn, room);
    NetFitsSuffix(x.net, x.snd.Queue(), if S.Advances(x.snd, ack) then S.Covered(x.snd.Queue(), ack) else 0);
    ReplaceSender(x, S.Ack(x.snd, ack, fast), isn, room);
  }

  // ---------------------------------------------------------------------------------------------
  // The receiver's steps

  /** Segments of this sender never make a queued segment overrun its successor: every queued segment
      starts where some sent segment starts, and no sent segment straddles another. */
  lemma NeverOverruns(x: System, s: Seg, memory: bool, isn: int, room: nat)
    requires Inv(x, isn, room) && s in x.net
    ensures !R.Overruns(x.rcv, s, memory)
  {
    if R.Overruns(x.rcv, s, memory) {
      var o := x.rcv.ooseq[R.Place(x.rcv.ooseq, s.seqno) + 1];
      assert StartsInNet(x.net, o.seqno);
      var a :| a in x.net && a.seqno == o.seqno;
      assert Straddles(s, a);
    }
  }

  /** Every segment queued after an arrival starts where some sent segment starts. */
  lemma QueueStartsInNet(r: R.Rcv, net: set<Seg>, s: Packet, memory: bool)
    requires s in net
    requires forall o <- r.ooseq :: StartsInNet(net, o.seqno)
    ensures forall o <- R.Receive(r, s, memory).ooseq :: StartsInNet(net, o.seqno)
  {
    var q := R.Receive(r, s, memory).ooseq;
    forall i | 0 <= i < |q| ensures StartsInNet(net, q[i].seqno) {
      R.ReceiveStarts(r, s, memory, i);
      if q[i].seqno != s.seqno {
        var k :| 0 <= k < |r.ooseq| && r.ooseq[k].seqno == q[i].seqno;
        assert r.ooseq[k] in r.ooseq;
      }
    }
  }

  lemma SegmentStep(x: System, s: Packet, memory: bool, isn: int, room: nat)
    requires Inv(x, isn, room) && s in x.net
    ensures Inv(x.(rcv := R.Receive(x.rcv, s, memory)), isn, room)
  {
    hide R.Receive;
    hide R.Overruns;
    hide S.Inv;
    hide NetFits;
    hide StartsInNet;
    NeverOverruns(x, s, memory, isn, room);
    R.ReceiveKeepsExactly(x.rcv, s, memory, SentBytes(x, isn), isn);
    R.ReceiveOnlyGrows(x.rcv, s, memory);
    QueueStartsInNet(x.rcv, x.net, s, memory);
    ReplaceReceiver(x, R.Receive(x.rcv, s, memory), isn, room);
  }

  /** A receiver that only moves forward may take the place of another. */
  lemma ReplaceReceiver(x: System, r: R.Rcv, isn: int, room: nat)
    requires Inv(x, isn, room)
    requires R.Inv(r, SentBytes(x, isn), isn) && x.rcv.nxt <= r.nxt
    requires forall o <- r.ooseq :: StartsInNet(x.net, o.seqno)
    ensures Inv(x.(rcv := r), isn, room)
  {
    hide R.Inv;
    hide S.Inv;
    hide NetOk;
    hide NetFits;
    hide StartsInNet;
  }

  /** The application reads, or the queue is dropped: no queued segment is new, and no window shrinks. */
  lemma QueueShrinks(r: R.Rcv, r': R.Rcv, stream: seq<byte>, isn: int)
    requires R.Inv(r, stream, isn)
    requires r'.nxt == r.nxt && r.wnd <= r'.wnd <= R.TCP_WND && r'.delivered == r.delivered
    requires r'.ooseq == r.ooseq || r'.ooseq == []
    ensures R.Inv(r', stream, isn)
  {
  }

  lemma ReceiverStep(x: System, step: Step, isn: int, room: nat)
    requires Inv(x, isn, room) && (step.Recved? || step.DropQueue?)
    ensures Inv(Next(x, step), isn, room)
  {
    hide S.Inv;
    hide NetOk;
    hide NetFits;
    hide StartsInNet;
    var r := Next(x, step).rcv;
    QueueShrinks(x.rcv, r, SentBytes(x, isn), isn);
    ReplaceReceiver(x, r, isn, room);
  }

  lemma SendAckStep(x: System, isn: int, room: nat)
    requires Inv(x, isn, room)
    ensures Inv(Next(x, SendAck), isn, room)
  {
    hide S.Inv;
    hide R.Inv;
    hide NetOk;
    hide NetFits;
    hide StartsInNet;
    assert SentBytes(Next(x, SendAck), isn) == SentBytes(x, isn);
  }

  // ---------------------------------------------------------------------------------------------
  // The theorems

  lemma EstablishedInv(isn: int, room: nat, mss: nat)
    requires room < U16 && mss < U16
    ensures Inv(Established(isn, room, mss), isn, room)
  {
  }

  /** Every step keeps the invariant. */
  lemma NextKeeps(x: System, step: Step, isn: int, room: nat)
    requires Inv(x, isn, room)
    ensures Inv(Next(x, step), isn, room)
  {
    hide Inv;
    hide SendAll;
    hide S.Rexmit;
    hide S.Ack;
    hide S.Write;
    hide S.CanWrite;
    hide S.Inv;
    hide R.Receive;
    hide R.Recved;
    hide R.DropQueue;
    match step
    case Write(data, copy, allocs) => WriteStep(x, data, copy, allocs, isn, room);
    case Output(wnd) => OutputStep(x, wnd, isn, room);
    case Retransmit(wnd) =>
      RexmitStep(x, isn, room);
      OutputStep(x.(snd := S.Rexmit(x.snd)), wnd, isn, room);
    case AckArrives(ack, fast) => if ack in x.acks { AckStep(x, ack, fast, isn, room); }
    case SegmentArrives(s, memory) =>
      if s in x.net && s.len == |s.data| < U16 { SegmentStep(x, s, memory, isn, room); }
    case SendAck => SendAckStep(x, isn, room);
    case Recved(n) => ReceiverStep(x, step, isn, room);
    case DropQueue => ReceiverStep(x, step, isn, room);
  }

  lemma {:induction false} RunKeeps(x: System, steps: seq<Step>, isn: int, room: nat)
    requires Inv(x, isn, room)
    ensures Inv(Run(x, steps), isn, room)
    decreases |steps|
  {
    hide Inv;
    hide Next;
    if steps != [] {
      NextKeeps(x, steps[0], isn, room);
      RunKeeps(Next(x, steps[0]), steps[1..], isn, room);
    }
  }

  /** What the invariant means at the two ends. */
  lemma DeliveredAndQueued(x: System, isn: int, room: nat)
    requires Inv(x, isn, room)
    ensures x.rcv.delivered <= x.written
    ensures 0 <= x.rcv.nxt - x.snd.Start() <= |S.Bytes(x.snd.Queue())|
    ensures x.written == x.rcv.delivered + S.Bytes(x.snd.Queue())[x.rcv.nxt - x.snd.Start()..]
  {
    hide NetOk;
    hide NetFits;
    hide StartsInNet;
    hide S.Tiles;
    Meets(x.written, x.rcv.delivered, S.Bytes(x.snd.Queue()), x.snd.max - isn, x.rcv.nxt - isn, x.snd.Start() - isn);
  }

  /** A prefix of some bytes and a suffix of them that overlap make up all of them. */
  lemma Meets(all: seq<byte>, front: seq<byte>, back: seq<byte>, m: int, k: int, i: int)
    requires 0 <= i <= k <= m <= |all|
    requires front == all[..m][..k] && back == all[i..]
    ensures front <= all && k - i <= |back|
    ensures all == front + back[k - i..]
  {
    assert front == all[..k] && back[k - i..] == all[k..];
  }

  /** The states of all runs of a connection whose send buffer and segment size fit 16 bits. */
  ghost predicate Reachable(x: System, isn: int, room: nat) {
    && room < U16
    && exists mss: nat, steps :: mss < U16 && x == Run(Established(isn, room, mss), steps)
  }

  lemma ReachableInv(x: System, isn: int, room: nat)
    requires Reachable(x, isn, room)
    ensures Inv(x, isn, room)
  {
    hide Inv;
    var mss: nat, steps :| mss < U16 && x == Run(Established(isn, room, mss), steps);
    EstablishedInv(isn, room, mss);
    RunKeeps(Established(isn, room, mss), steps, isn, room);
  }

  /** End to end: in every reachable state the delivered bytes are a prefix of the written ones, and
      the queues of the sender end with exactly the bytes that are missing. */
  lemma EndToEnd(x: System, isn: int, room: nat)
    requires Reachable(x, isn, room)
    ensures x.rcv.delivered <= x.written
    ensures 0 <= x.rcv.nxt - x.snd.Start() <= |S.Bytes(x.snd.Queue())|
    ensures x.written == x.rcv.delivered + S.Bytes(x.snd.Queue())[x.rcv.nxt - x.snd.Start()..]
  {
    hide Inv;
    hide Reachable;
    ReachableInv(x, isn, room);
    DeliveredAndQueued(x, isn, room);
  }

  /** When the sender has nothing queued any more, everything written has been delivered. */
  lemma EmptyQueuesMeanDelivered(x: System, isn: int, room: nat)
    requires Reachable(x, isn, room) && x.snd.Queue() == []
    ensures x.rcv.delivered == x.written
  {
    EndToEnd(x, isn, room);
    assert x.written == x.rcv.delivered + [];
  }

  /** In every reachable state the two queues tile the numbers of the written bytes that are not
      removed yet, in segments of at most mss bytes; the free send buffer and the bytes not yet
      acknowledged add up to the same number; and snd_queuelen counts the buffers of all queued
      segments. */
  lemma SendAccounting(x: System, isn: int, room: nat)
    requires Reachable(x, isn, room)
    ensures x.snd.lbb == isn + |x.written|
    ensures S.Tiles(x.snd.Queue(), x.snd.Start(), x.snd.lbb)
    ensures forall q <- x.snd.Queue() :: q.Len() <= x.snd.mss
    ensures x.snd.buf + (x.snd.lbb - x.snd.lastack) == room
    ensures x.snd.queuelen == S.Buffers(x.snd.Queue()) <= S.SND_QUEUELEN
  {
    ReachableInv(x, isn, room);
  }

  // ---------------------------------------------------------------------------------------------
  // No run is a dead end

  lemma RunJoin(x: System, a: seq<Step>, b: seq<Step>)
    ensures Run(x, a + b) == Run(Run(x, a), b)
    decreases |a|
  {
    if a == [] {
      assert a + b == b;
    } else {
      assert (a + b)[1..] == a[1..] + b;
      RunJoin(Next(x, a[0]), a[1..], b);
    }
  }

  /** A wide enough window lets everything out. */
  lemma {:induction false} WideWindowSendsAll(s: S.Snd, wnd: nat)
    requires forall i :: 0 <= i < |s.unsent| ==> s.unsent[i].End() - s.lastack <= wnd
    ensures forall i :: 0 <= i < |s.unsent| ==> s.unsent[i].Wire() in S.Sent(s, wnd)
    decreases |s.unsent|
  {
    if s.unsent != [] {
      var s' := S.SendFirst(s);
      WideWindowSendsAll(s', wnd);
      forall i | 0 < i < |s.unsent| ensures s.unsent[i].Wire() in S.Sent(s, wnd) {
        assert s'.unsent[i - 1] == s.unsent[i];
      }
    }
  }

  /** With nothing unacknowledged, a window as wide as the queue puts every queued segment on the
      network. */
  lemma OutputSendsAll(x: System, isn: int, room: nat)
    requires Inv(x, isn, room) && x.snd.unacked == []
    ensures var x' := SendAll(x, x.snd.lbb - x.snd.lastack);
            && x'.snd.Queue() == x.snd.Queue()
            && forall i :: 0 <= i < |x.snd.Queue()| ==> x.snd.Queue()[i].Wire() in x'.net
  {
    hide R.Inv;
    hide NetOk;
    hide NetFits;
    hide StartsInNet;
    hide S.Tiles;
    hide S.Sent;
    hide S.Output;
    var wnd := x.snd.lbb - x.snd.lastack;
    S.OutputKeeps(x.snd, wnd, x.written, isn, room);
    forall i | 0 <= i < |x.snd.Queue()| ensures x.snd.Queue()[i].Wire() in S.Sent(x.snd, wnd) {
      S.QueueOfUnsent(x.snd);
      S.TilesBounds(x.snd.Queue(), x.snd.Start(), x.snd.lbb);
      WideWindowSendsAll(x.snd, wnd);
    }
  }

  /** One retransmission, or one output when there is nothing to retransmit, puts every queued segment
      on the network. */
  lemma EverythingSent(x: System, isn: int, room: nat) returns (step: Step)
    requires Inv(x, isn, room)
    ensures var x' := Next(x, step);
            && Inv(x', isn, room)
            && x'.snd.Queue() == x.snd.Queue() && x'.written == x.written
            && x'.rcv == x.rcv && x'.acks == x.acks
            && forall i :: 0 <= i < |x.snd.Queue()| ==> x.snd.Queue()[i].Wire() in x'.net
  {
    hide Inv;
    var wnd := WindowOf(x, isn, room);
    step := if x.snd.unacked == [] then Output(wnd) else Retransmit(wnd);
    NextKeeps(x, step, isn, room);
    RexmitStep(x, isn, room);
    RexmitQueue(x.snd);
    OutputSendsAll(x.(snd := S.Rexmit(x.snd)), isn, room);
  }

  lemma WindowOf(x: System, isn: int, room: nat) returns (wnd: nat)
    requires Inv(x, isn, room)
    ensures wnd == x.snd.lbb - x.snd.lastack
  {
    wnd := x.snd.lbb - x.snd.lastack;
  }

  lemma RexmitQueue(s: S.Snd)
    ensures S.Rexmit(s).Queue() == s.Queue() && S.Rexmit(s).unacked == []
    ensures S.Rexmit(s).lbb == s.lbb && S.Rexmit(s).lastack == s.lastack
  {
    assert [] + (s.unacked + s.unsent) == s.unacked + s.unsent;
  }

  /** A sent segment that starts at or below nxt carries the receiver past its end. */
  lemma ArrivalAdvances(x: System, s: Packet, isn: int, room: nat)
    requires Inv(x, isn, room) && s in x.net && s.seqno <= x.rcv.nxt && x.rcv.wnd > 0
    ensures s.End() <= R.Receive(x.rcv, s, false).nxt
  {
    hide S.Inv;
    hide NetFits;
    R.ReceiveOnlyGrows(x.rcv, s, false);
    if x.rcv.nxt < s.End() {
      var t := R.TrimFront(s, x.rcv.nxt);
      assert t.End() == s.End() && t.seqno == x.rcv.nxt;
      var q := x.rcv.ooseq;
      if q != [] && q[0].seqno <= s.End() {
        assert StartsInNet(x.net, q[0].seqno);
        var a :| a in x.net && a.seqno == q[0].seqno;
        assert !Straddles(s, a);
        assert q[0].seqno == s.End();
        assert R.CutAtQueue(t, q).len == t.len;
      }
      R.DrainOnlyGrows(R.Accept(x.rcv, R.CutAtQueue(t, q)));
    }
  }

  /** The application reads everything, and a segment arrives. */
  function ReadAndArrive(s: Seg): seq<Step> { [Recved(R.TCP_WND), SegmentArrives(s, false)] }

  lemma RunTwo(x: System, a: Step, b: Step)
    ensures Run(x, [a, b]) == Next(Next(x, a), b)
  {
    assert [a, b][1..] == [b] && [b][1..] == [];
    assert Run(Next(x, a), [b]) == Next(Next(x, a), b);
  }

  lemma OneArrives(x: System, s: Seg, isn: int, room: nat)
    requires Inv(x, isn, room) && s in x.net && s.seqno <= x.rcv.nxt
    ensures var x' := Run(x, ReadAndArrive(s));
            && Inv(x', isn, room)
            && x'.snd == x.snd && x'.written == x.written && x'.net == x.net
            && s.End() <= x'.rcv.nxt
  {
    hide S.Inv;
    hide R.Inv;
    hide NetOk;
    hide NetFits;
    hide StartsInNet;
    hide R.Receive;
    hide Run;
    var x1 := Next(x, Recved(R.TCP_WND));
    NextKeeps(x, Recved(R.TCP_WND), isn, room);
    ArrivesSound(x1, s, isn, room);
    RunTwo(x, Recved(R.TCP_WND), SegmentArrives(s, false));
  }

  lemma ArrivesSound(x: System, s: Seg, isn: int, room: nat)
    requires Inv(x, isn, room) && s in x.net && s.seqno <= x.rcv.nxt && x.rcv.wnd > 0
    ensures var x' := Next(x, SegmentArrives(s, false));
            Inv(x', isn, room) && x' == x.(rcv := x'.rcv) && s.End() <= x'.rcv.nxt
  {
    hide S.Inv;
    hide R.Inv;
    hide NetFits;
    hide StartsInNet;
    hide R.Receive;
    assert s.SliceOf(SentBytes(x, isn), isn);
    ArrivalAdvances(x, s, isn, room);
    NextKeeps(x, SegmentArrives(s, false), isn, room);
  }

  /** Each queued segment starts where the one before it ends, the first one at or below nxt. */
  lemma QueuedStart(x: System, n: nat, nxt: int, isn: int, room: nat)
    requires Inv(x, isn, room) && n < |x.snd.Queue()|
    requires x.rcv.nxt <= nxt && (n > 0 ==> x.snd.Queue()[n - 1].End() <= nxt)
    ensures x.snd.Queue()[n].seqno <= nxt
  {
    var mid := S.TilesSplit(x.snd.Queue(), n, x.snd.Start(), x.snd.lbb);
  }

  /** The first n queued segments arrive in order. */
  lemma {:induction false} AllArrive(x: System, n: nat, isn: int, room: nat) returns (steps: seq<Step>)
    requires Inv(x, isn, room) && n <= |x.snd.Queue()|
    requires forall i :: 0 <= i < |x.snd.Queue()| ==> x.snd.Queue()[i].Wire() in x.net
    ensures var x' := Run(x, steps);
            && Inv(x', isn, room)
            && x'.snd == x.snd && x'.written == x.written && x'.net == x.net
            && (n > 0 ==> x.snd.Queue()[n - 1].End() <= x'.rcv.nxt)
  {
    hide S.Inv;
    hide R.Inv;
    hide NetOk;
    hide NetFits;
    hide StartsInNet;
    if n == 0 {
      steps := [];
    } else {
      var before := AllArrive(x, n - 1, isn, room);
      var x1, s := Run(x, before), x.snd.Queue()[n - 1].Wire();
      QueuedStart(x1, n - 1, x1.rcv.nxt, isn, room);
      OneArrives(x1, s, isn, room);
      steps := before + ReadAndArrive(s);
      RunJoin(x, before, ReadAndArrive(s));
    }
  }

  /** From every reachable state the connection can be brought to an end: some continuation of the run
      delivers everything that was written and empties the queues of the sender. */
  lemma NoDeadEnd(x: System, isn: int, room: nat) returns (more: seq<Step>)
    requires Reachable(x, isn, room)
    ensures Run(x, more).written == x.written == Run(x, more).rcv.delivered
    ensures Run(x, more).snd.Queue() == []
  {
    ReachableInv(x, isn, room);
    var send := EverythingSent(x, isn, room);
    var x1 := Next(x, send);
    var arrive := AllArrive(x1, |x1.snd.Queue()|, isn, room);
    var x2 := Run(x1, arrive);
    AllArrivedMeansDelivered(x2, isn, room);
    var finish := [SendAck, AckArrives(x2.rcv.nxt, false)];
    var x3 := FinalAck(x2, isn, room);
    RunJoin(x1, arrive, finish);
    more := [send] + (arrive + finish);
    assert more[1..] == arrive + finish;
  }

  lemma AllArrivedMeansDelivered(x: System, isn: int, room: nat)
    requires Inv(x, isn, room)
    requires x.snd.Queue() != [] ==> x.snd.Queue()[|x.snd.Queue()| - 1].End() <= x.rcv.nxt
    ensures x.rcv.nxt == x.snd.lbb == x.snd.max && x.rcv.delivered == x.written
  {
    hide NetOk;
    hide NetFits;
    hide StartsInNet;
    var n := |x.snd.Queue()|;
    var mid := S.TilesSplit(x.snd.Queue(), n, x.snd.Start(), x.snd.lbb);
    assert x.snd.Queue()[n..] == [];
    assert x.written[..|x.written|] == x.written;
  }

  lemma FinalAck(x: System, isn: int, room: nat) returns (x': System)
    requires Inv(x, isn, room)
    requires x.rcv.nxt == x.snd.lbb == x.snd.max
    ensures x' == Run(x, [SendAck, AckArrives(x.rcv.nxt, false)])
    ensures x'.snd.Queue() == [] && x'.rcv == x.rcv && x'.written == x.written
  {
    var ack := x.rcv.nxt;
    x' := Next(Next(x, SendAck), AckArrives(ack, false));
    RunTwo(x, SendAck, AckArrives(ack, false));
    S.AckOfEverything(x.snd, false, x.written, isn, room);
  }
}
