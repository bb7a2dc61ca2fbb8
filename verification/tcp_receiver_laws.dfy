/**
 * What a receiver does with the bytes of a segment: the window, the numbers it holds, and the delivery of
 * segments that arrive in any order.
 */
module ReceiverLaws {
  import opened Segments
  import opened Receiver

  function Max(a: int, b: int): int { if a < b then b else a }

  // ---------------------------------------------------------------------------------------------
  // The window

  lemma {:induction false} DrainWindow(r: Rcv)
    ensures Drain(r).nxt + Drain(r).wnd == Max(r.nxt + r.wnd, Drain(r).nxt)
    decreases |r.ooseq|
  {
    if r.ooseq != [] && r.ooseq[0].seqno == r.nxt {
      DrainWindow(Accept(r, r.ooseq[0]).(ooseq := r.ooseq[1..]));
      DrainOnlyGrows(Accept(r, r.ooseq[0]).(ooseq := r.ooseq[1..]));
    }
  }

  /** The right edge of the window does not move when segments arrive, unless a segment reaches beyond it: every
      byte that is delivered closes the window by one. */
  lemma WindowCloses(r: Rcv, s: Packet, memory: bool)
    ensures var r' := Receive(r, s, memory);
            r'.nxt + r'.wnd == Max(r.nxt + r.wnd, r'.nxt)
  {
    var t := CutAtQueue(TrimFront(s, r.nxt), r.ooseq);
    DrainWindow(Accept(r, t));
    DrainOnlyGrows(Accept(r, t));
  }

  /** What the application takes opens it again, up to its full size. */
  lemma WindowOpens(r: Rcv, n: nat)
    requires r.wnd <= TCP_WND
    ensures Recved(r, n).nxt + Recved(r, n).wnd == r.nxt + if r.wnd + n <= TCP_WND then r.wnd + n else TCP_WND
    ensures Recved(r, n) == r.(wnd := Recved(r, n).wnd)
  {
  }

  // ---------------------------------------------------------------------------------------------
  // The numbers held

  /** A queued segment has number n. */
  ghost predicate In(q: seq<Seg>, n: int) {
    exists i :: 0 <= i < |q| && q[i].seqno <= n < q[i].End()
  }

  /** Number n is delivered or queued. */
  ghost predicate Held(r: Rcv, n: int) {
    n < r.nxt || In(r.ooseq, n)
  }

  /** A queued segment starts above a and up to n. */
  ghost predicate StartsWithin(q: seq<Seg>, a: int, n: int) {
    exists i :: 0 <= i < |q| && a < q[i].seqno <= n
  }

  /** Number n is in the part behind s of a queued segment that has all of s strictly inside. */
  ghost predicate Behind(q: seq<Seg>, s: Seg, n: int) {
    exists i :: 0 <= i < |q| && q[i].seqno < s.seqno && s.End() <= n < q[i].End()
  }

  lemma InJoin(a: seq<Seg>, b: seq<Seg>, n: int)
    ensures In(a + b, n) <==> In(a, n) || In(b, n)
  {
    if i :| 0 <= i < |a| && a[i].seqno <= n < a[i].End() {
      assert (a + b)[i] == a[i];
    }
    if i :| 0 <= i < |b| && b[i].seqno <= n < b[i].End() {
      assert (a + b)[|a| + i] == b[i];
    }
  }

  lemma InOne(s: Seg, n: int)
    ensures In([s], n) <==> s.seqno <= n < s.End()
  {
    assert [s][0] == s;
  }

  lemma {:induction false} DrainHolds(r: Rcv, n: int)
    requires Drainable(r)
    ensures Held(Drain(r), n) <==> Held(r, n)
    decreases |r.ooseq|
  {
    if r.ooseq != [] && r.ooseq[0].seqno == r.nxt {
      var o := r.ooseq[0];
      assert r.ooseq == [o] + r.ooseq[1..];
      InJoin([o], r.ooseq[1..], n);
      InOne(o, n);
      AcceptFirstKeeps(r);
      DrainHolds(Accept(r, o).(ooseq := r.ooseq[1..]), n);
    }
  }

  /** Nothing of the queue lies below its first segment. */
  lemma FirstStart(r: Rcv, n: int)
    requires QueueOk(r)
    ensures StartsWithin(r.ooseq, r.nxt, n) <==> r.ooseq != [] && r.ooseq[0].seqno <= n
  {
    if i :| 0 <= i < |r.ooseq| && r.nxt < r.ooseq[i].seqno <= n {
      assert i > 0 ==> r.ooseq[0].seqno < r.ooseq[i].seqno;
    }
    if r.ooseq != [] {
      assert r.ooseq[0] in r.ooseq;
    }
  }

  lemma InSequenceHolds(r: Rcv, t: Seg, n: int)
    requires QueueOk(r) && t.Sound() && t.seqno == r.nxt
    ensures Held(InSequence(r, t), n) <==>
            Held(r, n) || (t.seqno <= n < t.End() && !StartsWithin(r.ooseq, t.seqno, n))
  {
    CutAcceptDrainable(r, t);
    DrainHolds(Accept(r, CutAtQueue(t, r.ooseq)), n);
    CutAtQueueSound(t, r.ooseq);
    FirstStart(r, n);
    if r.ooseq != [] && r.ooseq[0].seqno <= t.End() {
      CutSound(t, r.ooseq[0].seqno - t.seqno);
    }
    hide QueueOk;
    hide Drain;
  }

  /** A segment that starts where a queued one starts. */
  lemma SameStartHolds(r: Rcv, s: Seg, i: nat, n: int)
    requires QueueOk(r) && s.Sound() && i < |r.ooseq| && r.ooseq[i].seqno == s.seqno
    requires s.len > r.ooseq[i].len && i + 1 < |r.ooseq| ==> s.End() <= r.ooseq[i + 1].seqno
    ensures !Behind(r.ooseq, s, n)
    ensures var q' := if s.len > r.ooseq[i].len then r.ooseq[i := s] else r.ooseq;
            && (s.seqno <= n < s.End() ==> In(q', n) && (In(r.ooseq, n) || !StartsWithin(r.ooseq, s.seqno, n)))
            && (!(s.seqno <= n < s.End()) ==> (In(q', n) <==> In(r.ooseq, n)))
  {
    var q := r.ooseq;
    var q' := if s.len > q[i].len then q[i := s] else q;
    forall k | 0 <= k < |q| && q[k].seqno < s.seqno ensures q[k].End() <= s.seqno {
    }
    assert q'[i].seqno == s.seqno && s.End() <= q'[i].End();
    assert forall k {:trigger q[k]} :: 0 <= k < |q| && k != i ==> q'[k] == q[k];
    if s.seqno <= n < s.End() && !In(q, n) {
      forall k | 0 <= k < |q| && s.seqno < q[k].seqno ensures n < q[k].seqno {
        assert i < k;
        assert k > i + 1 ==> q[i + 1].seqno < q[k].seqno;
        assert s.len > q[i].len;
      }
    }
  }

  /** The cut queue before the place of s. */
  lemma BeforeHolds(r: Rcv, s: Seg, i: nat, n: int)
    requires QueueOk(r) && s.Sound() && i <= |r.ooseq|
    requires forall k :: 0 <= k < i ==> r.ooseq[k].seqno < s.seqno
    ensures In(CutBefore(r.ooseq, i, s), n) <==> In(r.ooseq[..i], n) && n < s.seqno
  {
    var q := r.ooseq;
    if i > 0 {
      var o := q[i - 1];
      CutAtSound(o, s.seqno);
      assert o in q;
      if o.End() > s.seqno {
        CutSound(o, s.seqno - o.seqno);
      }
      assert q[..i] == q[..i - 1] + [o];
      InJoin(q[..i - 1], [o], n);
      InJoin(q[..i - 1], [CutAt(o, s.seqno)], n);
      InOne(o, n);
      InOne(CutAt(o, s.seqno), n);
      var front := q[..i - 1];
      if k :| 0 <= k < |front| && front[k].seqno <= n < front[k].End() {
        assert front[k] == q[k] && q[k].End() <= q[i - 1].seqno;
      }
    }
  }

  lemma AtHolds(r: Rcv, s: Seg, i: nat, n: int)
    requires QueueOk(r) && s.Sound() && i <= |r.ooseq|
    requires forall k :: 0 <= k < i ==> r.ooseq[k].seqno < s.seqno
    requires i < |r.ooseq| ==> s.seqno < r.ooseq[i].seqno
    ensures var t := CutForNext(r.ooseq, i, s);
            t.seqno <= n < t.End() <==> s.seqno <= n < s.End() && !StartsWithin(r.ooseq, s.seqno, n)
  {
    var q := r.ooseq;
    if i < |q| {
      CutAtSound(s, q[i].seqno);
      if s.End() > q[i].seqno {
        CutSound(s, q[i].seqno - s.seqno);
      }
    }
    forall k | 0 <= k < |q| ensures s.seqno < q[k].seqno <==> i <= k {
      assert k > i ==> q[i].seqno < q[k].seqno;
    }
    if k :| 0 <= k < |q| && s.seqno < q[k].seqno <= n {
      assert k > i ==> q[i].seqno < q[k].seqno;
    }
  }

  /** The part of the queue from the place of a segment on. */
  lemma BackPart(r: Rcv, s: Seg, i: nat, n: int)
    requires QueueOk(r) && s.Sound() && i <= |r.ooseq|
    requires i < |r.ooseq| ==> s.seqno < r.ooseq[i].seqno
    ensures In(r.ooseq[i..], n) ==> s.seqno < n && StartsWithin(r.ooseq, s.seqno, n) && !In(r.ooseq[..i], n)
  {
    var q := r.ooseq;
    if k :| 0 <= k < |q[i..]| && q[i..][k].seqno <= n < q[i..][k].End() {
      var m := i + k;
      assert q[m] == q[i..][k] && q[i].seqno <= q[m].seqno;
      forall j | 0 <= j < |q[..i]| ensures q[..i][j].End() <= n {
        assert q[j] == q[..i][j] && q[j].End() <= q[m].seqno;
      }
    }
  }

  /** The part in front of it: when it has n, no queued segment between starts up to n. */
  lemma FrontPart(r: Rcv, s: Seg, i: nat, n: int)
    requires QueueOk(r) && i <= |r.ooseq|
    requires forall k :: 0 <= k < i ==> r.ooseq[k].seqno < s.seqno
    ensures In(r.ooseq[..i], n) ==> !StartsWithin(r.ooseq, s.seqno, n)
  {
    var q := r.ooseq;
    if k :| 0 <= k < |q[..i]| && q[..i][k].seqno <= n < q[..i][k].End() {
      forall j | 0 <= j < |q| && s.seqno < q[j].seqno ensures n < q[j].seqno {
        assert q[k] == q[..i][k] && q[k].End() <= q[j].seqno;
      }
    }
  }

  lemma InOrder(q: seq<Seg>, i: nat, k: nat)
    requires Sorted(q) && i < |q| && k < |q|
    ensures i <= k ==> q[i].seqno <= q[k].seqno
  {
  }

  lemma BehindIsFront(r: Rcv, s: Seg, i: nat, n: int)
    requires QueueOk(r) && s.Sound() && i <= |r.ooseq|
    requires forall k :: 0 <= k < i ==> r.ooseq[k].seqno < s.seqno
    requires i < |r.ooseq| ==> s.seqno < r.ooseq[i].seqno
    ensures Behind(r.ooseq, s, n) <==> In(r.ooseq[..i], n) && s.End() <= n
  {
    var q := r.ooseq;
    if k :| 0 <= k < |q| && q[k].seqno < s.seqno && s.End() <= n < q[k].End() {
      if i < |q| {
        InOrder(q, i, k);
      }
      assert q[..i][k] == q[k];
    }
    if k :| 0 <= k < |q[..i]| && q[..i][k].seqno <= n < q[..i][k].End() {
      assert q[k] == q[..i][k];
    }
  }

  /** Which numbers of the queue are before, in and behind a segment at place i. */
  lemma Parts(r: Rcv, s: Seg, i: nat, n: int)
    requires QueueOk(r) && s.Sound() && i <= |r.ooseq|
    requires forall k :: 0 <= k < i ==> r.ooseq[k].seqno < s.seqno
    requires i < |r.ooseq| ==> s.seqno < r.ooseq[i].seqno
    ensures In(r.ooseq, n) <==> In(r.ooseq[..i], n) || In(r.ooseq[i..], n)
    ensures In(r.ooseq[i..], n) ==> s.seqno < n && StartsWithin(r.ooseq, s.seqno, n) && !In(r.ooseq[..i], n)
    ensures In(r.ooseq[..i], n) ==> !StartsWithin(r.ooseq, s.seqno, n)
    ensures Behind(r.ooseq, s, n) <==> In(r.ooseq[..i], n) && s.End() <= n
  {
    hide In;
    hide StartsWithin;
    hide Behind;
    assert r.ooseq == r.ooseq[..i] + r.ooseq[i..];
    InJoin(r.ooseq[..i], r.ooseq[i..], n);
    BackPart(r, s, i, n);
    FrontPart(r, s, i, n);
    BehindIsFront(r, s, i, n);
  }

  /** Exactly which numbers the queue has after a segment was put in: its own up to the next queued start, and
      those from before but for the part behind it of a segment that it cuts in two. */
  lemma EnqueueHolds(r: Rcv, s: Seg, n: int)
    requires QueueOk(r) && s.Sound() && r.nxt < s.seqno < r.nxt + r.wnd && !Overruns(r, s, true)
    ensures In(Enqueue(r.ooseq, s, true), n) <==>
            if s.seqno <= n < s.End() then In(r.ooseq, n) || !StartsWithin(r.ooseq, s.seqno, n)
            else In(r.ooseq, n) && !Behind(r.ooseq, s, n)
  {
    hide In;
    hide StartsWithin;
    hide Behind;
    hide CutBefore;
    hide CutForNext;
    var q, i := r.ooseq, Place(r.ooseq, s.seqno);
    if i < |q| && q[i].seqno == s.seqno {
      SameStartHolds(r, s, i, n);
    } else {
      Parts(r, s, i, n);
      BeforeHolds(r, s, i, n);
      AtHolds(r, s, i, n);
      InJoin(CutBefore(q, i, s) + [CutForNext(q, i, s)], q[i..], n);
      InJoin(CutBefore(q, i, s), [CutForNext(q, i, s)], n);
      InOne(CutForNext(q, i, s), n);
    }
  }

  /** Exactly which numbers a receiver holds after an arrival, whatever arrives: t is what is left of the segment
      above nxt. */
  lemma ReceiveHolds(r: Rcv, s: Packet, memory: bool, n: int)
    requires QueueOk(r) && !Overruns(r, s, memory)
    ensures var t := TrimFront(s, r.nxt);
            Held(Receive(r, s, memory), n) <==>
            if s.len == 0 || !(r.nxt <= t.seqno < r.nxt + r.wnd) || (t.seqno > r.nxt && !memory) then Held(r, n)
            else if t.seqno <= n < t.End() then Held(r, n) || !StartsWithin(r.ooseq, t.seqno, n)
            else Held(r, n) && (n < r.nxt || !Behind(r.ooseq, t, n))
  {
    hide Enqueue;
    hide InSequence;
    hide Overruns;
    var t := TrimFront(s, r.nxt);
    if s.len > 0 && r.nxt <= t.seqno < r.nxt + r.wnd {
      if t.seqno == r.nxt {
        InSequenceHolds(r, t, n);
        NothingBehind(r, t, n);
      } else if memory {
        EnqueueHolds(r, t, n);
      } else {
        NothingQueued(r.ooseq, t);
      }
    }
  }

  lemma NothingQueued(q: seq<Seg>, s: Seg)
    ensures Enqueue(q, s, false) == q
  {
  }

  lemma NothingBehind(r: Rcv, t: Seg, n: int)
    requires QueueOk(r) && t.seqno == r.nxt
    ensures !Behind(r.ooseq, t, n)
  {
    forall i | 0 <= i < |r.ooseq| ensures r.nxt < r.ooseq[i].seqno {
      assert r.ooseq[i] in r.ooseq;
    }
  }

  // ---------------------------------------------------------------------------------------------
  // Any order

  /** Segments none of which starts strictly inside of another. */
  ghost predicate Unstraddled(net: set<Seg>) {
    && (forall a <- net :: a.Sound())
    && (forall a, b :: a in net && b in net ==> !(a.seqno < b.seqno < a.End()))
  }

  /** What is queued are such segments, whole, and all of them end inside the window. */
  ghost predicate Whole(r: Rcv, net: set<Seg>) {
    && QueueOk(r)
    && (forall i :: 0 <= i < |r.ooseq| ==> r.ooseq[i] in net)
    && (forall a <- net :: a.End() <= r.nxt + r.wnd)
  }

  lemma NoOverrun(r: Rcv, s: Packet, memory: bool, net: set<Seg>)
    requires Unstraddled(net) && Whole(r, net) && s in net
    ensures !Overruns(r, s, memory)
  {
    var i := Place(r.ooseq, s.seqno);
    assert i + 1 < |r.ooseq| ==> r.ooseq[i].seqno < r.ooseq[i + 1].seqno && r.ooseq[i + 1] in net;
  }

  /** Neither a queued segment nor the arriving one is cut. */
  lemma NothingCut(r: Rcv, s: Packet, n: int, net: set<Seg>)
    requires Unstraddled(net) && Whole(r, net) && s in net
    ensures var t := TrimFront(s, r.nxt);
            && (t.seqno <= n < t.End() ==> !StartsWithin(r.ooseq, t.seqno, n))
            && !Behind(r.ooseq, t, n)
  {
    forall i | 0 <= i < |r.ooseq|
      ensures r.nxt < r.ooseq[i].seqno && !(s.seqno < r.ooseq[i].seqno < s.End())
      ensures !(r.ooseq[i].seqno < s.seqno < r.ooseq[i].End())
    {
      assert r.ooseq[i] in r.ooseq && r.ooseq[i] in net;
    }
    hide QueueOk;
    hide Unstraddled;
  }

  lemma StepHeld(r: Rcv, s: Packet, n: int, net: set<Seg>)
    requires Unstraddled(net) && Whole(r, net) && s in net
    ensures Held(Receive(r, s, true), n) <==> Held(r, n) || s.seqno <= n < s.End()
  {
    hide QueueOk;
    hide Receive;
    hide StartsWithin;
    hide Behind;
    NoOverrun(r, s, true, net);
    ReceiveHolds(r, s, true, n);
    NothingCut(r, s, n, net);
    assert s.Sound() && s.End() <= r.nxt + r.wnd;
  }

  lemma {:induction false} DrainLeaves(r: Rcv, net: set<Seg>)
    requires forall i :: 0 <= i < |r.ooseq| ==> r.ooseq[i] in net
    ensures forall i :: 0 <= i < |Drain(r).ooseq| ==> Drain(r).ooseq[i] in net
    decreases |r.ooseq|
  {
    if r.ooseq != [] && r.ooseq[0].seqno == r.nxt {
      DrainLeaves(Accept(r, r.ooseq[0]).(ooseq := r.ooseq[1..]), net);
    }
  }

  lemma EnqueueWhole(r: Rcv, s: Seg, net: set<Seg>)
    requires Unstraddled(net) && Whole(r, net) && s in net
    ensures forall i :: 0 <= i < |Enqueue(r.ooseq, s, true)| ==> Enqueue(r.ooseq, s, true)[i] in net
  {
    var q, i := r.ooseq, Place(r.ooseq, s.seqno);
    if i > 0 {
      assert q[i - 1] in net && CutAt(q[i - 1], s.seqno) == q[i - 1];
    }
    if i < |q| && s.seqno < q[i].seqno {
      assert q[i] in net && CutForNext(q, i, s) == s;
    }
    hide QueueOk;
  }

  lemma StepWhole(r: Rcv, s: Packet, net: set<Seg>)
    requires Unstraddled(net) && Whole(r, net) && s in net
    ensures Whole(Receive(r, s, true), net)
    ensures Receive(r, s, true).nxt + Receive(r, s, true).wnd == r.nxt + r.wnd
  {
    hide Enqueue;
    hide Drain;
    var r' := Receive(r, s, true);
    NoOverrun(r, s, true, net);
    ReceiveKeepsQueue(r, s, true);
    WindowCloses(r, s, true);
    StepHeld(r, s, r'.nxt - 1, net);
    if Held(r, r'.nxt - 1) {
      HeldInWindow(r, r'.nxt - 1, net);
    }
    EnqueueWhole(r, s, net);
    DrainLeaves(Accept(r, CutAtQueue(TrimFront(s, r.nxt), r.ooseq)), net);
    hide Overruns;
    hide QueueOk;
  }

  lemma HeldInWindow(r: Rcv, n: int, net: set<Seg>)
    requires Whole(r, net) && Held(r, n)
    ensures n < r.nxt + r.wnd || n < r.nxt
  {
  }

  ghost predicate Covers(run: seq<Arrival>, n: int) {
    exists k :: 0 <= k < |run| && run[k].s.seqno <= n < run[k].s.End()
  }

  /** After a run of such segments the receiver holds what it held before and what they cover. */
  lemma {:induction false} RunHolds(r: Rcv, run: seq<Arrival>, n: int, net: set<Seg>)
    requires Unstraddled(net) && Whole(r, net)
    requires forall a <- run :: a.memory && a.s in net
    ensures Whole(ReceiveAll(r, run), net)
    ensures Held(ReceiveAll(r, run), n) <==> Held(r, n) || Covers(run, n)
    decreases |run|
  {
    hide Unstraddled;
    hide Whole;
    hide Held;
    hide Receive;
    if run != [] {
      StepWhole(r, run[0].s, net);
      StepHeld(r, run[0].s, n, net);
      RunHolds(Receive(r, run[0].s, true), run[1..], n, net);
      CoversMore(run, n);
    }
  }

  lemma CoversMore(run: seq<Arrival>, n: int)
    requires run != []
    ensures Covers(run, n) <==> run[0].s.seqno <= n < run[0].s.End() || Covers(run[1..], n)
  {
    if k :| 0 <= k < |run| && run[k].s.seqno <= n < run[k].s.End() {
      assert k > 0 ==> run[1..][k - 1] == run[k];
    }
    if k :| 0 <= k < |run[1..]| && run[1..][k].s.seqno <= n < run[1..][k].s.End() {
      assert run[k + 1] == run[1..][k];
    }
  }

  /** Segments that fit the window and cover a stream, none starting strictly inside of another, may arrive in any
      order and any number of times: if there is memory to queue them the whole stream is delivered, without a
      retransmission. */
  lemma AnyOrderDelivers(run: seq<Arrival>, stream: seq<byte>, isn: int, wnd: nat, net: set<Seg>)
    requires |stream| <= wnd <= TCP_WND && Unstraddled(net)
    requires forall a <- net :: a.SliceOf(stream, isn)
    requires forall a <- run :: a.memory && a.s in net
    requires forall n :: isn <= n < isn + |stream| ==> Covers(run, n)
    ensures ReceiveAll(Rcv(isn, wnd, [], []), run).delivered == stream
  {
    var r, r' := Rcv(isn, wnd, [], []), ReceiveAll(Rcv(isn, wnd, [], []), run);
    assert r.delivered == stream[..0];
    RunHolds(r, run, r'.nxt, net);
    RunInv(r, run, stream, isn, net);
    hide ReceiveAll;
    hide Unstraddled;
    NextNotHeld(r');
    assert isn <= r'.nxt <= isn + |stream|;
    assert !Held(r', r'.nxt);
    assert r'.nxt == isn + |stream|;
    assert stream[..|stream|] == stream;
  }

  lemma NextNotHeld(r: Rcv)
    requires QueueOk(r)
    ensures !Held(r, r.nxt)
  {
    forall i | 0 <= i < |r.ooseq| ensures r.nxt < r.ooseq[i].seqno {
      assert r.ooseq[i] in r.ooseq;
    }
  }

  lemma {:induction false} RunInv(r: Rcv, run: seq<Arrival>, stream: seq<byte>, isn: int, net: set<Seg>)
    requires Unstraddled(net) && Whole(r, net) && Inv(r, stream, isn)
    requires forall a <- net :: a.SliceOf(stream, isn)
    requires forall a <- run :: a.memory && a.s in net
    ensures Inv(ReceiveAll(r, run), stream, isn)
    decreases |run|
  {
    hide Unstraddled;
    hide Whole;
    hide Inv;
    hide Receive;
    if run != [] {
      NoOverrun(r, run[0].s, true, net);
      ReceiveKeepsExactly(r, run[0].s, true, stream, isn);
      StepWhole(r, run[0].s, net);
      RunInv(Receive(r, run[0].s, true), run[1..], stream, isn, net);
    }
  }
}
