/**
 * The receiving half of tcp_receive, over unbounded sequence numbers: trimming, in-sequence
 * delivery, and the queue of segments received out of sequence.
 */
module Receiver {
  import opened Segments

  /** The full receive window. */
  const TCP_WND := 512

  /** The receiver's part of the control block, with the bytes handed to the application so far. */
  datatype Rcv = Rcv(nxt: int, wnd: nat, ooseq: seq<Seg>, delivered: seq<byte>)

  /** Drops the bytes before nxt of a segment that straddles it. */
  function TrimFront(s: Packet, nxt: int): Packet {
    if s.seqno < nxt < s.End()
    then Seg(nxt, s.End() - nxt, s.data[nxt - s.seqno..])
    else s
  }

  function SubSat(a: nat, b: nat): nat {
    if a < b then 0 else a - b
  }

  /** Accepts a segment as the next bytes of the stream. */
  function Accept(r: Rcv, s: Seg): Rcv {
    r.(nxt := r.nxt + s.len, wnd := SubSat(r.wnd, s.len), delivered := r.delivered + s.data)
  }

  /** Delivers queued segments as long as the first one is the next in sequence. */
  function Drain(r: Rcv): Rcv
    decreases |r.ooseq|
  {
    if r.ooseq != [] && r.ooseq[0].seqno == r.nxt
    then Drain(Accept(r, r.ooseq[0]).(ooseq := r.ooseq[1..]))
    else r
  }

  /** Cuts a segment that reaches the given number so that it ends there. */
  function CutAt(s: Seg, limit: int): Seg {
    if s.End() > limit then CutTail(s, limit - s.seqno) else s
  }

  /** Cuts an in-sequence segment at the first queued one. */
  function CutAtQueue(s: Seg, q: seq<Seg>): Seg {
    if q != [] && q[0].seqno <= s.End() then CutTail(s, q[0].seqno - s.seqno) else s
  }

  function InSequence(r: Rcv, s: Seg): Rcv {
    Drain(Accept(r, CutAtQueue(s, r.ooseq)))
  }

  /** The place of a number in a queue sorted by first number: how many segments start below it. */
  function Place(q: seq<Seg>, seqno: int): (i: nat)
    ensures i <= |q|
    ensures forall k :: 0 <= k < i ==> q[k].seqno < seqno
    ensures i < |q| ==> seqno <= q[i].seqno
  {
    if q == [] || seqno <= q[0].seqno then 0 else 1 + Place(q[1..], seqno)
  }

  /** The place is where the numbers stop being smaller. */
  lemma {:induction false} PlaceIs(q: seq<Seg>, seqno: int, i: nat)
    requires i <= |q|
    requires forall k :: 0 <= k < i ==> q[k].seqno < seqno
    requires i < |q| ==> seqno <= q[i].seqno
    ensures Place(q, seqno) == i
  {
    if i > 0 {
      forall k | 0 <= k < i - 1 ensures q[1..][k].seqno < seqno {
        assert q[1..][k] == q[k + 1];
      }
      PlaceIs(q[1..], seqno, i - 1);
    }
  }

  /** The queue with the segment before place i cut so that it ends where s starts. */
  function CutBefore(q: seq<Seg>, i: nat, s: Seg): seq<Seg>
    requires i <= |q|
  {
    if i == 0 then [] else q[..i - 1] + [CutAt(q[i - 1], s.seqno)]
  }

  /** The segment to be put at place i, cut where the next queued one starts. */
  function CutForNext(q: seq<Seg>, i: nat, s: Seg): Seg
    requires i <= |q|
  {
    if i == |q| then s else CutAt(s, q[i].seqno)
  }

  /** Queues an out-of-sequence segment.  With no memory for a copy the queue stays as it is. */
  function Enqueue(q: seq<Seg>, s: Seg, memory: bool): seq<Seg> {
    var i := Place(q, s.seqno);
    if !memory then q
    else if i < |q| && q[i].seqno == s.seqno then
      if s.len > q[i].len then q[i := s] else q
    else CutBefore(q, i, s) + [CutForNext(q, i, s)] + q[i..]
  }

  /** What queueing does when the place is known. */
  lemma EnqueueAt(q: seq<Seg>, s: Seg, memory: bool, i: nat)
    requires i <= |q|
    requires forall k :: 0 <= k < i ==> q[k].seqno < s.seqno
    requires i < |q| ==> s.seqno <= q[i].seqno
    ensures Enqueue(q, s, memory) ==
            if !memory then q
            else if i < |q| && q[i].seqno == s.seqno then
              if s.len > q[i].len then q[i := s] else q
            else CutBefore(q, i, s) + [CutForNext(q, i, s)] + q[i..]
  {
    PlaceIs(q, s.seqno, i);
  }

  /** One incoming segment. */
  function Receive(r: Rcv, s: Packet, memory: bool): Rcv {
    var t := TrimFront(s, r.nxt);
    if s.len == 0 || !(r.nxt <= t.seqno < r.nxt + r.wnd) then r
    else if t.seqno == r.nxt then InSequence(r, t)
    else r.(ooseq := Enqueue(r.ooseq, t, memory))
  }

  /** The three ways a segment is handled. */
  lemma ReceiveCases(r: Rcv, s: Packet, memory: bool)
    ensures var t := TrimFront(s, r.nxt);
            Receive(r, s, memory) ==
            if s.len == 0 || !(r.nxt <= t.seqno < r.nxt + r.wnd) then r
            else if t.seqno == r.nxt then InSequence(r, t)
            else r.(ooseq := Enqueue(r.ooseq, t, memory))
  {
  }

  /** tcp_recved: the application took n bytes, and the window opens, at most to its full size. */
  function Recved(r: Rcv, n: nat): Rcv {
    r.(wnd := if r.wnd + n > TCP_WND then TCP_WND else r.wnd + n)
  }

  /** The out-of-sequence queue is dropped when the connection has been idle for too long. */
  function DropQueue(r: Rcv): Rcv {
    r.(ooseq := [])
  }

  // ---------------------------------------------------------------------------------------------
  // What the queue keeps, whoever the peer is

  ghost predicate Sorted(q: seq<Seg>) {
    forall i, j :: 0 <= i < j < |q| ==> q[i].seqno < q[j].seqno
  }

  ghost predicate Disjoint(q: seq<Seg>) {
    forall i, j :: 0 <= i < j < |q| ==> q[i].End() <= q[j].seqno
  }

  /** Sorted, pairwise disjoint, wholly above nxt and inside the window. */
  ghost predicate QueueOk(r: Rcv) {
    && Sorted(r.ooseq)
    && Disjoint(r.ooseq)
    && r.wnd <= TCP_WND
    && forall o <- r.ooseq :: o.Sound() && r.nxt < o.seqno < r.nxt + r.wnd
  }

  /** Queued segments and delivered bytes are pieces of one stream. */
  ghost predicate HoldsStream(r: Rcv, stream: seq<byte>, isn: int) {
    && isn <= r.nxt <= isn + |stream|
    && r.delivered == stream[..r.nxt - isn]
    && forall o <- r.ooseq :: o.SliceOf(stream, isn)
  }

  ghost predicate Inv(r: Rcv, stream: seq<byte>, isn: int) {
    QueueOk(r) && HoldsStream(r, stream, isn)
  }

  /** The one step that can break the queue: a longer segment takes the place of a shorter one with
      the same start, and runs past the start of the segment queued after it. */
  predicate Overruns(r: Rcv, s: Seg, memory: bool) {
    var i := Place(r.ooseq, s.seqno);
    && memory
    && r.nxt < s.seqno < r.nxt + r.wnd
    && i + 1 < |r.ooseq|
    && s.seqno == r.ooseq[i].seqno
    && s.len > r.ooseq[i].len
    && s.End() > r.ooseq[i + 1].seqno
  }

  // ---------------------------------------------------------------------------------------------
  // Lemmas

  // The structure of the queue

  /** The queue is sound and does not reach below nxt. */
  ghost predicate Drainable(r: Rcv) {
    && Sorted(r.ooseq) && Disjoint(r.ooseq) && r.wnd <= TCP_WND
    && forall o <- r.ooseq :: o.Sound() && r.nxt <= o.seqno < r.nxt + r.wnd
  }

  lemma AcceptFirstKeeps(r: Rcv)
    requires Drainable(r) && r.ooseq != [] && r.ooseq[0].seqno == r.nxt
    ensures Drainable(Accept(r, r.ooseq[0]).(ooseq := r.ooseq[1..]))
  {
    var o, q := r.ooseq[0], r.ooseq[1..];
    forall k | 0 <= k < |q| ensures q[k] in r.ooseq && o.End() <= q[k].seqno {
      assert q[k] == r.ooseq[k + 1];
    }
  }

  /** Draining a sound queue that does not reach below nxt ends with a queue above nxt. */
  lemma {:induction false} DrainKeepsQueue(r: Rcv)
    requires Drainable(r)
    ensures QueueOk(Drain(r))
    decreases |r.ooseq|
  {
    if r.ooseq != [] && r.ooseq[0].seqno == r.nxt {
      AcceptFirstKeeps(r);
      DrainKeepsQueue(Accept(r, r.ooseq[0]).(ooseq := r.ooseq[1..]));
    } else if r.ooseq != [] {
      forall k | 0 <= k < |r.ooseq| ensures r.nxt < r.ooseq[k].seqno {
        if k > 0 { assert r.ooseq[0].seqno < r.ooseq[k].seqno; }
      }
    }
  }

  lemma CutSound(s: Seg, n: int)
    requires s.Sound() && 0 < n <= s.len
    ensures CutTail(s, n) == Seg(s.seqno, n, s.data[..n])
  {
    assert n % U16 == n;
  }

  lemma CutAtSound(s: Seg, limit: int)
    requires s.Sound() && s.seqno < limit
    ensures CutAt(s, limit).Sound()
    ensures CutAt(s, limit).seqno == s.seqno && CutAt(s, limit).End() <= limit
  {
    if s.End() > limit {
      CutSound(s, limit - s.seqno);
    }
  }

  lemma CutAtQueueSound(s: Seg, q: seq<Seg>)
    requires s.Sound() && (q != [] ==> s.seqno < q[0].seqno)
    ensures CutAtQueue(s, q).Sound()
    ensures CutAtQueue(s, q).seqno == s.seqno
    ensures q != [] ==> CutAtQueue(s, q).End() <= q[0].seqno
  {
    if q != [] && q[0].seqno <= s.End() {
      CutSound(s, q[0].seqno - s.seqno);
    }
  }

  /** Accepting a segment cut at the queue leaves a queue that does not reach below nxt. */
  lemma CutAcceptDrainable(r: Rcv, s: Seg)
    requires QueueOk(r) && s.Sound() && s.seqno == r.nxt
    ensures Drainable(Accept(r, CutAtQueue(s, r.ooseq)))
  {
    var t := CutAtQueue(s, r.ooseq);
    CutAtQueueSound(s, r.ooseq);
    forall k | 0 <= k < |r.ooseq| ensures t.End() <= r.ooseq[k].seqno {
      if k > 0 { assert r.ooseq[0].seqno < r.ooseq[k].seqno; }
    }
  }

  lemma InSequenceKeepsQueue(r: Rcv, s: Seg)
    requires QueueOk(r) && s.Sound() && s.seqno == r.nxt
    ensures QueueOk(InSequence(r, s))
  {
    CutAcceptDrainable(r, s);
    DrainKeepsQueue(Accept(r, CutAtQueue(s, r.ooseq)));
  }

  lemma SortedJoin(a: seq<Seg>, b: seq<Seg>)
    requires Sorted(a) && Sorted(b)
    requires a != [] && b != [] ==> a[|a| - 1].seqno < b[0].seqno
    ensures Sorted(a + b)
  {
    var q := a + b;
    forall i, j | 0 <= i < j < |q| ensures q[i].seqno < q[j].seqno {
      if i < |a| <= j {
        assert a[i].seqno <= a[|a| - 1].seqno;
        assert b[0].seqno <= b[j - |a|].seqno;
      }
    }
  }

  lemma DisjointJoin(a: seq<Seg>, b: seq<Seg>)
    requires Disjoint(a) && Disjoint(b) && Sorted(b)
    requires a != [] && b != [] ==> a[|a| - 1].End() <= b[0].seqno
    ensures Disjoint(a + b)
  {
    var q := a + b;
    forall i, j | 0 <= i < j < |q| ensures q[i].End() <= q[j].seqno {
      if i < |a| <= j {
        assert a[i].End() <= a[|a| - 1].seqno || i == |a| - 1;
        assert a[i].End() <= a[|a| - 1].End();
        assert b[0].seqno <= b[j - |a|].seqno;
      }
    }
  }

  /** Queueing keeps the queue sorted by first number, without any condition on the peer. */
  lemma EnqueueKeepsSorted(q: seq<Seg>, s: Seg, memory: bool)
    requires Sorted(q)
    ensures Sorted(Enqueue(q, s, memory))
  {
    var i := Place(q, s.seqno);
    if memory && !(i < |q| && q[i].seqno == s.seqno) {
      var before, t := CutBefore(q, i, s), CutForNext(q, i, s);
      assert forall k :: 0 <= k < i ==> before[k].seqno == q[k].seqno;
      SortedJoin(before, [t]);
      SortedJoin(before + [t], q[i..]);
    }
  }

  lemma QueueJoin(r: Rcv, a: seq<Seg>, b: seq<Seg>)
    requires QueueOk(r.(ooseq := a)) && QueueOk(r.(ooseq := b))
    requires a != [] && b != [] ==> a[|a| - 1].End() <= b[0].seqno
    ensures QueueOk(r.(ooseq := a + b))
  {
    SortedJoin(a, b);
    DisjointJoin(a, b);
    forall o | o in a + b ensures o.Sound() && r.nxt < o.seqno < r.nxt + r.wnd {
      assert o in a || o in b;
    }
  }

  /** A segment put between two sound parts of the queue. */
  lemma QueueBetween(r: Rcv, a: seq<Seg>, t: Seg, b: seq<Seg>)
    requires QueueOk(r.(ooseq := a)) && QueueOk(r.(ooseq := b))
    requires t.Sound() && r.nxt < t.seqno < r.nxt + r.wnd
    requires a != [] ==> a[|a| - 1].End() <= t.seqno
    requires b != [] ==> t.End() <= b[0].seqno
    ensures QueueOk(r.(ooseq := a + [t] + b))
  {
    QueueJoin(r, a, [t]);
    QueueJoin(r, a + [t], b);
  }

  lemma QueuePart(r: Rcv, i: nat, j: nat)
    requires QueueOk(r) && i <= j <= |r.ooseq|
    ensures QueueOk(r.(ooseq := r.ooseq[i..j]))
  {
    forall o | o in r.ooseq[i..j] ensures o in r.ooseq {
    }
  }

  /** The part of the queue before the place of s, cut where s starts, is sound. */
  lemma CutBeforeKeeps(r: Rcv, i: nat, s: Seg)
    requires QueueOk(r) && i <= |r.ooseq|
    requires i > 0 ==> r.ooseq[i - 1].seqno < s.seqno
    ensures QueueOk(r.(ooseq := CutBefore(r.ooseq, i, s)))
    ensures var q := CutBefore(r.ooseq, i, s); q != [] ==> q[|q| - 1].End() <= s.seqno
  {
    if i > 0 {
      var o := r.ooseq[i - 1];
      assert o in r.ooseq;
      CutAtSound(o, s.seqno);
      QueuePart(r, 0, i - 1);
      var front, t := r.ooseq[0..i - 1], CutAt(o, s.seqno);
      assert front != [] ==> front[|front| - 1] == r.ooseq[i - 2];
      QueueJoin(r, front, [t]);
      assert CutBefore(r.ooseq, i, s) == front + [t];
    }
  }

  lemma InsertKeepsQueue(r: Rcv, i: nat, s: Seg)
    requires QueueOk(r) && s.Sound() && i <= |r.ooseq|
    requires r.nxt < s.seqno < r.nxt + r.wnd
    requires i > 0 ==> r.ooseq[i - 1].seqno < s.seqno
    requires i < |r.ooseq| ==> s.seqno < r.ooseq[i].seqno
    ensures QueueOk(r.(ooseq := CutBefore(r.ooseq, i, s) + [CutForNext(r.ooseq, i, s)] + r.ooseq[i..]))
  {
    hide CutBefore;
    CutBeforeKeeps(r, i, s);
    QueuePart(r, i, |r.ooseq|);
    assert r.ooseq[i..|r.ooseq|] == r.ooseq[i..];
    if i < |r.ooseq| {
      CutAtSound(s, r.ooseq[i].seqno);
    }
    QueueBetween(r, CutBefore(r.ooseq, i, s), CutForNext(r.ooseq, i, s), r.ooseq[i..]);
  }

  lemma ReplaceKeepsDisjoint(q: seq<Seg>, i: nat, s: Seg)
    requires Sorted(q) && Disjoint(q)
    requires i < |q| && q[i].seqno == s.seqno
    requires i + 1 < |q| ==> s.End() <= q[i + 1].seqno
    ensures Disjoint(q[i := s])
  {
    var q' := q[i := s];
    forall j, k | 0 <= j < k < |q'| ensures q'[j].End() <= q'[k].seqno {
      if j == i && k > i + 1 {
        assert q[i + 1].seqno < q[k].seqno;
      }
    }
  }

  lemma ReplaceKeepsQueue(r: Rcv, i: nat, s: Seg)
    requires QueueOk(r) && s.Sound() && r.nxt < s.seqno < r.nxt + r.wnd
    requires i < |r.ooseq| && i == Place(r.ooseq, s.seqno) && r.ooseq[i].seqno == s.seqno && s.len > r.ooseq[i].len
    requires i + 1 < |r.ooseq| ==> s.End() <= r.ooseq[i + 1].seqno
    ensures QueueOk(r.(ooseq := r.ooseq[i := s]))
  {
    EnqueueKeepsSorted(r.ooseq, s, true);
    ReplaceKeepsDisjoint(r.ooseq, i, s);
  }

  lemma EnqueueKeepsQueue(r: Rcv, s: Seg, memory: bool)
    requires QueueOk(r) && s.Sound()
    requires r.nxt < s.seqno < r.nxt + r.wnd
    requires !Overruns(r, s, memory)
    ensures QueueOk(r.(ooseq := Enqueue(r.ooseq, s, memory)))
  {
    hide QueueOk;
    hide CutBefore;
    hide CutForNext;
    var q, i := r.ooseq, Place(r.ooseq, s.seqno);
    if memory && i < |q| && q[i].seqno == s.seqno {
      if s.len > q[i].len {
        ReplaceKeepsQueue(r, i, s);
      }
    } else if memory {
      InsertKeepsQueue(r, i, s);
    }
  }

  /** Whatever arrives, the queue stays sorted, disjoint, inside the window and above nxt, exactly when
      the step is not an overrunning replacement. */
  lemma ReceiveKeepsQueue(r: Rcv, s: Packet, memory: bool)
    requires QueueOk(r)
    ensures QueueOk(Receive(r, s, memory)) <==> !Overruns(r, s, memory)
  {
    var t := TrimFront(s, r.nxt);
    if s.len > 0 && r.nxt <= t.seqno < r.nxt + r.wnd {
      if t.seqno == r.nxt {
        InSequenceKeepsQueue(r, t);
      } else if Overruns(r, s, memory) {
        OverrunBreaksQueue(r, s);
      } else {
        EnqueueKeepsQueue(r, s, memory);
      }
    }
  }

  lemma OverrunBreaksQueue(r: Rcv, s: Packet)
    requires QueueOk(r) && Overruns(r, s, true)
    ensures !Disjoint(Enqueue(r.ooseq, s, true))
  {
    var i, q := Place(r.ooseq, s.seqno), Enqueue(r.ooseq, s, true);
    assert q[i] == s && q[i + 1] == r.ooseq[i + 1];
  }

  // The contents of the queue

  lemma {:induction false} DrainKeepsStream(r: Rcv, stream: seq<byte>, isn: int)
    requires HoldsStream(r, stream, isn)
    ensures HoldsStream(Drain(r), stream, isn)
    decreases |r.ooseq|
  {
    if r.ooseq != [] && r.ooseq[0].seqno == r.nxt {
      AcceptKeepsStream(r, r.ooseq[0], stream, isn);
      DrainKeepsStream(Accept(r, r.ooseq[0]).(ooseq := r.ooseq[1..]), stream, isn);
    }
  }

  lemma AcceptKeepsStream(r: Rcv, s: Seg, stream: seq<byte>, isn: int)
    requires HoldsStream(r, stream, isn) && s.SliceOf(stream, isn) && s.seqno == r.nxt
    ensures HoldsStream(Accept(r, s), stream, isn)
  {
    assert stream[..s.End() - isn] == stream[..r.nxt - isn] + s.data;
  }

  lemma TrimFrontKeepsSlice(s: Packet, nxt: int, stream: seq<byte>, isn: int)
    requires s.SliceOf(stream, isn)
    ensures TrimFront(s, nxt).SliceOf(stream, isn)
  {
    if s.seqno < nxt < s.End() {
      assert s.data[nxt - s.seqno..] == stream[nxt - isn..s.End() - isn];
    }
  }

  lemma CutKeepsSlice(s: Seg, n: int, stream: seq<byte>, isn: int)
    requires s.SliceOf(stream, isn) && 0 < n <= s.len
    ensures CutTail(s, n).SliceOf(stream, isn) && CutTail(s, n).seqno == s.seqno
  {
    CutSound(s, n);
    assert s.data[..n] == stream[s.seqno - isn..s.seqno + n - isn];
  }

  lemma InSequenceKeepsStream(r: Rcv, s: Seg, stream: seq<byte>, isn: int)
    requires HoldsStream(r, stream, isn) && s.SliceOf(stream, isn) && s.seqno == r.nxt
    requires r.ooseq != [] ==> s.seqno < r.ooseq[0].seqno
    ensures HoldsStream(InSequence(r, s), stream, isn)
  {
    hide HoldsStream;
    hide Accept;
    hide Drain;
    hide CutTail;
    var t := CutAtQueue(s, r.ooseq);
    if r.ooseq != [] && r.ooseq[0].seqno <= s.End() {
      CutKeepsSlice(s, r.ooseq[0].seqno - s.seqno, stream, isn);
    }
    AcceptKeepsStream(r, t, stream, isn);
    DrainKeepsStream(Accept(r, t), stream, isn);
  }

  lemma CutAtKeepsSlice(s: Seg, limit: int, stream: seq<byte>, isn: int)
    requires s.SliceOf(stream, isn) && s.seqno < limit
    ensures CutAt(s, limit).SliceOf(stream, isn)
  {
    if s.End() > limit {
      CutKeepsSlice(s, limit - s.seqno, stream, isn);
    }
  }

  /** Every segment queued after an arrival is a piece of the stream, overrun or not. */
  lemma EnqueueKeepsStream(q: seq<Seg>, s: Seg, memory: bool, stream: seq<byte>, isn: int)
    requires s.SliceOf(stream, isn) && forall o <- q :: o.SliceOf(stream, isn)
    ensures forall o <- Enqueue(q, s, memory) :: o.SliceOf(stream, isn)
  {
    var i := Place(q, s.seqno);
    if i > 0 {
      assert q[i - 1] in q;
      CutAtKeepsSlice(q[i - 1], s.seqno, stream, isn);
    }
    if i < |q| && q[i].seqno != s.seqno {
      CutAtKeepsSlice(s, q[i].seqno, stream, isn);
    }
    hide Seg.SliceOf;
    hide CutAt;
  }

  /** Pieces of the stream in, pieces of the stream kept, and the stream delivered. */
  lemma ReceiveKeepsStream(r: Rcv, s: Packet, memory: bool, stream: seq<byte>, isn: int)
    requires QueueOk(r) && HoldsStream(r, stream, isn)
    requires s.SliceOf(stream, isn)
    ensures HoldsStream(Receive(r, s, memory), stream, isn)
  {
    var t := TrimFront(s, r.nxt);
    TrimFrontKeepsSlice(s, r.nxt, stream, isn);
    if r.nxt <= t.seqno < r.nxt + r.wnd {
      if t.seqno == r.nxt {
        InSequenceKeepsStream(r, t, stream, isn);
      } else {
        EnqueueKeepsStream(r.ooseq, t, memory, stream, isn);
      }
    }
  }

  /** The receiver against an arbitrary peer that sends pieces of one stream in any order, with any
      overlaps: one step keeps the queue sorted, disjoint and above nxt, and everything a piece of
      the stream, exactly when it is not an overrunning replacement. */
  lemma ReceiveKeepsExactly(r: Rcv, s: Packet, memory: bool, stream: seq<byte>, isn: int)
    requires Inv(r, stream, isn)
    requires s.SliceOf(stream, isn)
    ensures Inv(Receive(r, s, memory), stream, isn) <==> !Overruns(r, s, memory)
  {
    ReceiveKeepsQueue(r, s, memory);
    ReceiveKeepsStream(r, s, memory, stream, isn);
  }

  /** Nothing is ever taken back: the delivered bytes only grow, whatever arrives. */
  lemma {:induction false} DrainOnlyGrows(r: Rcv)
    ensures r.delivered <= Drain(r).delivered && r.nxt <= Drain(r).nxt
    decreases |r.ooseq|
  {
    if r.ooseq != [] && r.ooseq[0].seqno == r.nxt {
      DrainOnlyGrows(Accept(r, r.ooseq[0]).(ooseq := r.ooseq[1..]));
    }
  }

  lemma ReceiveOnlyGrows(r: Rcv, s: Packet, memory: bool)
    ensures r.delivered <= Receive(r, s, memory).delivered
    ensures r.nxt <= Receive(r, s, memory).nxt
  {
    DrainOnlyGrows(Accept(r, CutAtQueue(TrimFront(s, r.nxt), r.ooseq)));
  }

  ghost predicate StartsIn(q: seq<Seg>, seqno: int) {
    exists i :: 0 <= i < |q| && q[i].seqno == seqno
  }

  lemma {:induction false} DrainStarts(r: Rcv, i: nat)
    requires i < |Drain(r).ooseq|
    ensures StartsIn(r.ooseq, Drain(r).ooseq[i].seqno)
    decreases |r.ooseq|
  {
    if r.ooseq != [] && r.ooseq[0].seqno == r.nxt {
      var r' := Accept(r, r.ooseq[0]).(ooseq := r.ooseq[1..]);
      DrainStarts(r', i);
      var k :| 0 <= k < |r'.ooseq| && r'.ooseq[k].seqno == Drain(r).ooseq[i].seqno;
      assert r.ooseq[k + 1] == r'.ooseq[k];
    }
  }

  /** The queue never invents a start: a queued segment starts where one was queued before, or where
      the arriving segment starts. */
  lemma ReceiveStarts(r: Rcv, s: Packet, memory: bool, i: nat)
    requires i < |Receive(r, s, memory).ooseq|
    ensures var start := Receive(r, s, memory).ooseq[i].seqno;
            start == s.seqno || StartsIn(r.ooseq, start)
  {
    var t := TrimFront(s, r.nxt);
    var q := Receive(r, s, memory).ooseq;
    if q != r.ooseq {
      if t.seqno == r.nxt {
        DrainStarts(Accept(r, CutAtQueue(t, r.ooseq)), i);
      } else {
        var k := Place(r.ooseq, t.seqno);
        if i < k {
          assert q[i].seqno == r.ooseq[i].seqno;
        } else if i > k {
          assert q[i] in r.ooseq;
        }
      }
    }
  }

  // ---------------------------------------------------------------------------------------------
  // Whole runs

  /** An arriving segment, and whether there is memory for a copy of it. */
  datatype Arrival = Arrival(s: Packet, memory: bool)

  function ReceiveAll(r: Rcv, run: seq<Arrival>): Rcv
    decreases |run|
  {
    if run == [] then r else ReceiveAll(Receive(r, run[0].s, run[0].memory), run[1..])
  }

  ghost predicate NeverOverruns(r: Rcv, run: seq<Arrival>)
    decreases |run|
  {
    run != [] ==>
      && !Overruns(r, run[0].s, run[0].memory)
      && NeverOverruns(Receive(r, run[0].s, run[0].memory), run[1..])
  }

  /** Against any peer that sends pieces of one stream, a run without an overrunning replacement
      delivers exactly the stream up to nxt. */
  lemma {:induction false} RunDeliversStream(r: Rcv, run: seq<Arrival>, stream: seq<byte>, isn: int)
    requires Inv(r, stream, isn)
    requires forall a <- run :: a.s.SliceOf(stream, isn)
    requires NeverOverruns(r, run)
    ensures Inv(ReceiveAll(r, run), stream, isn)
    ensures ReceiveAll(r, run).delivered == stream[..ReceiveAll(r, run).nxt - isn]
    decreases |run|
  {
    if run != [] {
      ReceiveKeepsExactly(r, run[0].s, run[0].memory, stream, isn);
      RunDeliversStream(Receive(r, run[0].s, run[0].memory), run[1..], stream, isn);
    }
  }

  /** The first three arrivals of the run below: the second byte, the third byte, and then both in
      one segment, which takes the place of the first arrival. */
  lemma OverrunBuildsUp()
    ensures var q := [Seg(1, 2, [1, 2]), Seg(2, 1, [2])];
            var run := [Arrival(Seg(1, 1, [1]), true), Arrival(Seg(2, 1, [2]), true), Arrival(Seg(1, 2, [1, 2]), true)];
            ReceiveAll(Rcv(0, 512, [], []), run) == Rcv(0, 512, q, [])
  {
    var a, b, c := Seg(1, 1, [1]), Seg(2, 1, [2]), Seg(1, 2, [1, 2]);
    var r0 := Rcv(0, 512, [], []);
    var r1 := Receive(r0, a, true);
    assert r1 == r0.(ooseq := [a]);
    var r2 := Receive(r1, b, true);
    assert r2 == r0.(ooseq := [a, b]) by { assert Place([a], 2) == 1; }
    var r3 := Receive(r2, c, true);
    assert r3 == r0.(ooseq := [c, b]);
    var run := [Arrival(a, true), Arrival(b, true), Arrival(c, true)];
    assert run[1..][1..] == [Arrival(c, true)] && run[1..][1..][1..] == [];
    assert ReceiveAll(r2, run[1..][1..]) == r3;
    assert ReceiveAll(r1, run[1..]) == r3;
  }

  /** Then the first and the fourth byte arrive.  The entry left behind below nxt makes the last
      segment be cut to the length -1, which is 65535 in 16 bits. */
  lemma OverrunGoesOff()
    ensures var q := [Seg(1, 2, [1, 2]), Seg(2, 1, [2])];
            var r := Receive(Receive(Rcv(0, 512, q, []), Seg(0, 1, [0]), true), Seg(3, 1, [3]), true);
            r.nxt == 3 + U16 - 1 && r.delivered == [0, 1, 2, 3]
  {
    var c, b := Seg(1, 2, [1, 2]), Seg(2, 1, [2]);
    var d: Packet, e: Packet := Seg(0, 1, [0]), Seg(3, 1, [3]);
    var r3 := Rcv(0, 512, [c, b], []);
    assert CutAtQueue(d, [c, b]) == d;
    var r3a := Accept(r3, d);
    var r4 := Rcv(3, 509, [b], [0, 1, 2]);
    assert Accept(r3a, c).(ooseq := r3a.ooseq[1..]) == r4;
    assert Receive(r3, d, true) == Drain(r3a) == r4;
    assert CutAtQueue(e, [b]) == Seg(3, U16 - 1, [3]);
    assert Receive(r4, e, true) == Drain(Accept(r4, Seg(3, U16 - 1, [3])));
  }

  lemma ReceiveAllJoin(r: Rcv, a: seq<Arrival>, b: seq<Arrival>)
    ensures ReceiveAll(r, a + b) == ReceiveAll(ReceiveAll(r, a), b)
    decreases |a|
  {
    if a == [] {
      assert a + b == b;
    } else {
      assert (a + b)[1..] == a[1..] + b;
      ReceiveAllJoin(Receive(r, a[0].s, a[0].memory), a[1..], b);
    }
  }

  lemma OverrunIsInStream(a: Arrival)
    requires a.s in {Seg(1, 1, [1]), Seg(2, 1, [2]), Seg(1, 2, [1, 2]), Seg(0, 1, [0]), Seg(3, 1, [3])}
    ensures a.s.SliceOf([0, 1, 2, 3], 0)
  {
  }

  /** The run that shows why the exception is needed: pieces of a stream of four bytes make nxt run
      far past the end of the stream. */
  lemma OverrunRunsPastStream() returns (run: seq<Arrival>)
    ensures forall a <- run :: a.s.SliceOf([0, 1, 2, 3], 0)
    ensures ReceiveAll(Rcv(0, 512, [], []), run).nxt == 65538
    ensures ReceiveAll(Rcv(0, 512, [], []), run).delivered == [0, 1, 2, 3]
  {
    var run1 := [Arrival(Seg(1, 1, [1]), true), Arrival(Seg(2, 1, [2]), true), Arrival(Seg(1, 2, [1, 2]), true)];
    var run2 := [Arrival(Seg(0, 1, [0]), true), Arrival(Seg(3, 1, [3]), true)];
    run := run1 + run2;
    forall a | a in run ensures a.s.SliceOf([0, 1, 2, 3], 0) {
      assert a in run1 || a in run2;
      OverrunIsInStream(a);
    }
    OverrunBuildsUp();
    OverrunGoesOff();
    ReceiveAllJoin(Rcv(0, 512, [], []), run1, run2);
    var r := ReceiveAll(Rcv(0, 512, [], []), run1);
    assert ReceiveAll(r, run2) == Receive(Receive(r, run2[0].s, true), run2[1].s, true) by {
      assert run2[1..][1..] == [];
    }
  }
}
