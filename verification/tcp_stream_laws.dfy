/**
 * Over runs of the whole connection: the receive window is what the application has not taken, snd_nxt is what is
 * sent next, and snd_max is the end of something that was sent.
 */
module StreamLaws {
  import opened Segments
  import opened Stream
  import S = Sender
  import R = Receiver
  import RL = ReceiverLaws
  import SL = SenderLaws

  // ---------------------------------------------------------------------------------------------
  // The receive window

  /** Everything that is held lies inside the window. */
  ghost predicate HeldInside(r: R.Rcv) {
    forall n: int :: RL.Held(r, n) ==> n < r.nxt + r.wnd
  }

  /** Nothing but the segment is new. */
  lemma OnlyNew(r: R.Rcv, s: Packet, memory: bool, n: int)
    requires R.QueueOk(r) && !R.Overruns(r, s, memory) && RL.Held(R.Receive(r, s, memory), n)
    ensures RL.Held(r, n) || n < s.End()
  {
    RL.ReceiveHolds(r, s, memory, n);
    hide RL.Held;
    hide R.Receive;
  }

  /** A segment that ends inside the window does not move its right edge. */
  lemma EdgeStays(r: R.Rcv, s: Packet, memory: bool)
    requires R.QueueOk(r) && !R.Overruns(r, s, memory) && HeldInside(r) && s.End() <= r.nxt + r.wnd
    ensures var r' := R.Receive(r, s, memory);
            r'.nxt + r'.wnd == r.nxt + r.wnd && HeldInside(r')
  {
    var r' := R.Receive(r, s, memory);
    RL.WindowCloses(r, s, memory);
    assert RL.Held(r', r'.nxt - 1);
    OnlyNew(r, s, memory, r'.nxt - 1);
    forall n: int | RL.Held(r', n) ensures n < r.nxt + r.wnd {
      OnlyNew(r, s, memory, n);
    }
    hide R.Receive;
    hide RL.Held;
    R.ReceiveOnlyGrows(r, s, memory);
  }

  /** What of the delivered bytes the application has not taken. */
  function Unread(x: System, taken: nat): int { |x.rcv.delivered| - taken }

  function TakenBy(step: Step): nat { if step.Recved? then step.n else 0 }

  function TakenIn(steps: seq<Step>): nat {
    if steps == [] then 0 else TakenBy(steps[0]) + TakenIn(steps[1..])
  }

  /** The application takes what there is. */
  predicate TakesWhatIs(x: System, step: Step, taken: nat) {
    step.Recved? ==> step.n <= Unread(x, taken)
  }

  /** What arrives ends inside the window. */
  predicate EndsInside(x: System, step: Step) {
    step.SegmentArrives? && step.s in x.net ==> step.s.End() <= x.rcv.nxt + x.rcv.wnd
  }

  ghost predicate AllTake(x: System, steps: seq<Step>, taken: nat)
    decreases |steps|
  {
    steps == []
    || (TakesWhatIs(x, steps[0], taken) && AllTake(Next(x, steps[0]), steps[1..], taken + TakenBy(steps[0])))
  }

  ghost predicate AllEndInside(x: System, steps: seq<Step>)
    decreases |steps|
  {
    steps == [] || (EndsInside(x, steps[0]) && AllEndInside(Next(x, steps[0]), steps[1..]))
  }

  lemma DeliveredLength(x: System, isn: int, room: nat)
    requires Inv(x, isn, room)
    ensures |x.rcv.delivered| == x.rcv.nxt - isn && x.rcv.wnd <= R.TCP_WND && R.QueueOk(x.rcv)
  {
    hide NetOk;
    hide NetFits;
    hide S.Inv;
  }

  /** Every other step changes no more of the receiver than its window, or drops its queue. */
  lemma ReceiverElse(x: System, step: Step)
    requires !(step.SegmentArrives? && step.s in x.net && step.s.len == |step.s.data| < U16)
    ensures var r, r' := x.rcv, Next(x, step).rcv;
            && r'.nxt == r.nxt && r'.delivered == r.delivered && (r'.ooseq == r.ooseq || r'.ooseq == [])
            && r'.wnd == if step.Recved? then R.Recved(r, step.n).wnd else r.wnd
  {
  }

  lemma HeldSame(r: R.Rcv, r': R.Rcv)
    requires r'.nxt == r.nxt && r'.wnd >= r.wnd && (r'.ooseq == r.ooseq || r'.ooseq == [])
    ensures HeldInside(r) ==> HeldInside(r')
  {
    forall n: int | RL.Held(r', n) ensures RL.Held(r, n) {
    }
  }

  /** The receiver after an arrival: what is delivered more is taken from the window. */
  lemma ArrivalWindow(r: R.Rcv, s: Packet, memory: bool)
    requires R.QueueOk(r) && !R.Overruns(r, s, memory)
    ensures var r' := R.Receive(r, s, memory);
            && r'.wnd + (r'.nxt - r.nxt) >= r.wnd
            && (HeldInside(r) && s.End() <= r.nxt + r.wnd ==> r'.wnd + (r'.nxt - r.nxt) == r.wnd && HeldInside(r'))
  {
    hide R.Receive;
    hide HeldInside;
    RL.WindowCloses(r, s, memory);
    if HeldInside(r) && s.End() <= r.nxt + r.wnd {
      EdgeStays(r, s, memory);
    }
  }

  /** The window and what is unread make up at least the full window. */
  predicate WideEnough(x: System, taken: nat) {
    Unread(x, taken) >= 0 && x.rcv.wnd + Unread(x, taken) >= R.TCP_WND
  }

  /** They make up exactly the full window, and everything held lies inside. */
  ghost predicate Exact(x: System, taken: nat) {
    x.rcv.wnd + Unread(x, taken) == R.TCP_WND && HeldInside(x.rcv)
  }

  lemma SegmentWindow(x: System, step: Step, taken: nat, isn: int, room: nat)
    requires Inv(x, isn, room) && WideEnough(x, taken)
    requires step.SegmentArrives? && step.s in x.net && step.s.len == |step.s.data| < U16
    ensures WideEnough(Next(x, step), taken)
    ensures Exact(x, taken) && EndsInside(x, step) ==> Exact(Next(x, step), taken)
  {
    hide Inv;
    hide R.Receive;
    hide R.QueueOk;
    hide R.Overruns;
    hide HeldInside;
    DeliveredLength(x, isn, room);
    NextKeeps(x, step, isn, room);
    DeliveredLength(Next(x, step), isn, room);
    NeverOverruns(x, step.s, step.memory, isn, room);
    R.ReceiveOnlyGrows(x.rcv, step.s, step.memory);
    ArrivalWindow(x.rcv, step.s, step.memory);
  }

  lemma NextWindow(x: System, step: Step, taken: nat, isn: int, room: nat)
    requires Inv(x, isn, room) && TakesWhatIs(x, step, taken) && WideEnough(x, taken)
    ensures WideEnough(Next(x, step), taken + TakenBy(step))
    ensures Exact(x, taken) && EndsInside(x, step) ==> Exact(Next(x, step), taken + TakenBy(step))
  {
    if step.SegmentArrives? && step.s in x.net && step.s.len == |step.s.data| < U16 {
      SegmentWindow(x, step, taken, isn, room);
    } else {
      DeliveredLength(x, isn, room);
      hide Inv;
      ReceiverElse(x, step);
      hide Next;
      HeldSame(x.rcv, Next(x, step).rcv);
      hide HeldInside;
    }
  }

  /** In every run in which the application takes no more than there is, the window never closes further than what
      is unread; and the two make up exactly the full window if all segments end inside it. */
  lemma {:induction false} RunWindow(x: System, steps: seq<Step>, taken: nat, isn: int, room: nat)
    requires Inv(x, isn, room) && AllTake(x, steps, taken) && WideEnough(x, taken)
    ensures WideEnough(Run(x, steps), taken + TakenIn(steps))
    ensures Exact(x, taken) && AllEndInside(x, steps) ==> Exact(Run(x, steps), taken + TakenIn(steps))
    decreases |steps|
  {
    hide Inv;
    hide Next;
    hide WideEnough;
    hide Exact;
    hide TakesWhatIs;
    hide EndsInside;
    hide TakenBy;
    if steps != [] {
      NextKeeps(x, steps[0], isn, room);
      NextWindow(x, steps[0], taken, isn, room);
      RunWindow(Next(x, steps[0]), steps[1..], taken + TakenBy(steps[0]), isn, room);
    }
  }

  /** From the start of a connection: the window is TCP_WND less what was delivered and not taken. */
  lemma WindowIsUnread(steps: seq<Step>, isn: int, room: nat, mss: nat)
    requires room < U16 && mss < U16
    requires AllTake(Established(isn, room, mss), steps, 0) && AllEndInside(Established(isn, room, mss), steps)
    ensures var x := Run(Established(isn, room, mss), steps);
            x.rcv.wnd == R.TCP_WND - (|x.rcv.delivered| - TakenIn(steps))
  {
    hide Inv;
    hide Run;
    hide AllTake;
    hide AllEndInside;
    hide HeldInside;
    hide Established;
    StartWindow(isn, room, mss);
    RunWindow(Established(isn, room, mss), steps, 0, isn, room);
  }

  lemma StartWindow(isn: int, room: nat, mss: nat)
    requires room < U16 && mss < U16
    ensures var x := Established(isn, room, mss); Inv(x, isn, room) && WideEnough(x, 0) && Exact(x, 0)
  {
    EstablishedInv(isn, room, mss);
    hide Inv;
  }

  // ---------------------------------------------------------------------------------------------
  // snd_nxt

  /** The acknowledgement of everything arrives while something is unsent. */
  predicate LosesNxt(x: System, step: Step) {
    step.AckArrives? && step.ack in x.acks && SL.EndsUnsent(x.snd, step.ack)
  }

  ghost predicate NeverLosesNxt(x: System, steps: seq<Step>)
    decreases |steps|
  {
    steps == [] || (!LosesNxt(x, steps[0]) && NeverLosesNxt(Next(x, steps[0]), steps[1..]))
  }

  ghost predicate AlwaysNxt(x: System, steps: seq<Step>)
    decreases |steps|
  {
    SL.NxtOk(x.snd) && (steps == [] || AlwaysNxt(Next(x, steps[0]), steps[1..]))
  }

  lemma NextNxt(x: System, step: Step, isn: int, room: nat)
    requires Inv(x, isn, room) && SL.NxtOk(x.snd)
    ensures SL.NxtOk(Next(x, step).snd) <==> !LosesNxt(x, step)
  {
    SenderInv(x, isn, room);
    hide Inv;
    hide S.Write;
    hide S.Ack;
    hide S.Rexmit;
    hide S.Output;
    hide SL.NxtOk;
    match step
    case Write(data, copy, memory) => SL.WriteNxt(x.snd, data, copy, memory);
    case Output(wnd) => SL.OutputNxt(x.snd, wnd, x.written, isn, room);
    case Retransmit(wnd) =>
      S.RexmitKeeps(x.snd, x.written, isn, room);
      SL.RexmitNxt(x.snd);
      SL.OutputNxt(S.Rexmit(x.snd), wnd, x.written, isn, room);
    case AckArrives(ack, fast) => SL.AckNxt(x.snd, ack, fast, x.written, isn, room);
    case _ =>
  }

  lemma SenderInv(x: System, isn: int, room: nat)
    requires Inv(x, isn, room)
    ensures S.Inv(x.snd, x.written, isn, room)
  {
    hide S.Inv;
    hide R.Inv;
    hide NetOk;
    hide NetFits;
  }

  /** snd_nxt is the number of what is sent next in every state of a run, if and only if no acknowledgement of
      everything arrives while something is unsent. */
  lemma {:induction false} RunNxt(x: System, steps: seq<Step>, isn: int, room: nat)
    requires Inv(x, isn, room) && SL.NxtOk(x.snd)
    ensures AlwaysNxt(x, steps) <==> NeverLosesNxt(x, steps)
    decreases |steps|
  {
    hide Inv;
    hide Next;
    hide SL.NxtOk;
    hide LosesNxt;
    if steps != [] {
      NextKeeps(x, steps[0], isn, room);
      NextNxt(x, steps[0], isn, room);
      if !LosesNxt(x, steps[0]) {
        RunNxt(Next(x, steps[0]), steps[1..], isn, room);
      }
    }
  }

  // ---------------------------------------------------------------------------------------------
  // snd_max

  /** Nothing was sent, or something was that ends at snd_max. */
  ghost predicate MaxWasSent(x: System, isn: int) {
    x.snd.max == isn || exists a <- x.net :: a.End() == x.snd.max
  }

  lemma SendMax(x: System, s: S.Snd, wnd: nat, isn: int)
    requires MaxWasSent(x, isn) && s.max == x.snd.max
    ensures MaxWasSent(SendAll(x.(snd := s), wnd), isn)
  {
    var x' := SendAll(x.(snd := s), wnd);
    SL.OutputMax(s, wnd);
    if S.Output(s, wnd).max != s.max {
      var a :| a in S.Sent(s, wnd) && a.End() == S.Output(s, wnd).max;
      assert a in x'.net;
    } else if x.snd.max != isn {
      var a :| a in x.net && a.End() == x.snd.max;
      assert a in x'.net;
    }
  }

  lemma NextMax(x: System, step: Step, isn: int, room: nat)
    requires Inv(x, isn, room) && MaxWasSent(x, isn)
    ensures MaxWasSent(Next(x, step), isn)
  {
    hide Inv;
    hide MaxWasSent;
    hide SendAll;
    hide S.Ack;
    hide S.Write;
    hide S.Rexmit;
    hide R.Receive;
    SenderInv(x, isn, room);
    match step
    case Write(data, copy, memory) =>
      WriteMax(x.snd, data, copy, memory);
      SameMax(x, Next(x, step), isn);
    case Output(wnd) =>
      SendMax(x, x.snd, wnd, isn);
      assert x.(snd := x.snd) == x;
    case Retransmit(wnd) =>
      S.RexmitKeeps(x.snd, x.written, isn, room);
      SendMax(x, S.Rexmit(x.snd), wnd, isn);
    case AckArrives(ack, fast) =>
      S.AckKeeps(x.snd, ack, fast, x.written, isn, room);
      SameMax(x, Next(x, step), isn);
    case _ => SameMax(x, Next(x, step), isn);
  }

  lemma SameMax(x: System, x': System, isn: int)
    requires MaxWasSent(x, isn) && x'.snd.max == x.snd.max && x'.net == x.net
    ensures MaxWasSent(x', isn)
  {
  }

  lemma WriteMax(s: S.Snd, data: seq<byte>, copy: bool, memory: nat)
    ensures S.Write(s, data, copy, memory).max == s.max
  {
    hide S.CutUp;
    hide S.Append;
    hide S.CanWrite;
  }

  /** In every reachable state snd_max is the end of a segment that was sent, or the start. */
  lemma {:induction false} RunMax(x: System, steps: seq<Step>, isn: int, room: nat)
    requires Inv(x, isn, room) && MaxWasSent(x, isn)
    ensures MaxWasSent(Run(x, steps), isn)
    decreases |steps|
  {
    hide Inv;
    hide Next;
    hide MaxWasSent;
    if steps != [] {
      NextKeeps(x, steps[0], isn, room);
      NextMax(x, steps[0], isn, room);
      RunMax(Next(x, steps[0]), steps[1..], isn, room);
    }
  }
}
