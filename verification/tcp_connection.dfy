/**
 * A sending and a receiving control block, as they are in memory, and a network that carries segments and
 * acknowledgements with 32-bit numbers.  A run of the two is a run of the unbounded system, as long as the
 * network brings nothing that is almost half of the number space old.
 */
module Connections {
  import opened Segments
  import opened ControlBlock
  import S = Sender
  import R = Receiver
  import Stream

  function Images(net: set<Seg>): set<Seg> { set s | s in net :: WireSeg(s) }

  function AckImages(acks: set<int>): set<int> { set n | n in acks :: W(n) }

  lemma SentImages(net: set<Seg>, q: seq<Seg>)
    ensures Images(net + Stream.Elements(q)) == Images(net) + Stream.Elements(WireSegs(q))
  {
    hide W;
    hide WireSeg;
    var a, b := Images(net + Stream.Elements(q)), Images(net) + Stream.Elements(WireSegs(q));
    forall s | s in Stream.Elements(WireSegs(q)) ensures s in a {
      var i :| 0 <= i < |WireSegs(q)| && WireSegs(q)[i] == s;
      assert q[i] in net + Stream.Elements(q);
    }
    forall s | s in b ensures s in a {
      if s in Images(net) {
        var u :| u in net && WireSeg(u) == s;
        assert u in net + Stream.Elements(q);
      }
    }
    forall s | s in a ensures s in b {
      var u :| u in net + Stream.Elements(q) && WireSeg(u) == s;
      if u !in net {
        var i :| 0 <= i < |q| && q[i] == u;
        assert WireSegs(q)[i] == s;
      }
    }
  }

  lemma AckImagesMore(acks: set<int>, n: int)
    ensures AckImages(acks + {n}) == AckImages(acks) + {W(n)}
  {
    hide W;
  }

  /** What arrives was sent, and is not older than comparisons can tell. */
  ghost predicate InReach(x: Stream.System, step: Stream.Step) {
    match step
    case AckArrives(ack, _) => ack in x.acks && x.snd.lastack - FAR < ack
    case SegmentArrives(s, _) => s in x.net && x.rcv.nxt - FAR < s.seqno
    case _ => true
  }

  ghost predicate AllInReach(x: Stream.System, steps: seq<Stream.Step>)
    decreases |steps|
  {
    steps == [] || (InReach(x, steps[0]) && AllInReach(Stream.Next(x, steps[0]), steps[1..]))
  }

  /** Nothing that arrives is new by more than a window. */
  lemma NeverAhead(x: Stream.System, isn: int, room: nat)
    requires Stream.Inv(x, isn, room)
    ensures forall ack <- x.acks :: ack - x.snd.lastack < FAR
    ensures forall s <- x.net :: s.Sound() && s.seqno - x.rcv.nxt < FAR
  {
    hide R.Inv;
    hide Stream.NetFits;
    hide Stream.StartsInNet;
    StartIsNear(x.snd, x.written, isn, room);
    RcvInReach(x, isn, room);
    forall s | s in x.net ensures s.Sound() && s.seqno - x.rcv.nxt < FAR {
      assert s.SliceOf(Stream.SentBytes(x, isn), isn);
    }
  }

  lemma RcvInReach(x: Stream.System, isn: int, room: nat)
    requires Stream.Inv(x, isn, room)
    ensures x.rcv.nxt <= x.snd.max
  {
    hide S.Inv;
    hide Stream.NetOk;
    hide Stream.NetFits;
    hide Stream.StartsInNet;
  }

  class Connection {
    const a: TcpPcb
    const b: TcpPcb

    /** Everything that was ever put on the network. */
    var net: set<Seg>
    var acks: set<int>

    ghost var x: Stream.System

    ghost predicate Tied()
      reads this, a, b
    {
      && a != b
      && x.snd == a.snd && x.rcv == b.rcv && x.written == a.written
      && net == Images(x.net) && acks == AckImages(x.acks)
    }

    ghost predicate Valid()
      reads this, a, b
    {
      Tied() && a.SenderValid() && b.ReceiverValid() && Stream.Inv(x, a.isn, a.room)
    }

    constructor (isn: int, room: nat, mss: nat, irs: int, room2: nat, mss2: nat)
      requires 0 <= isn < U32 && 0 <= irs < U32 && room < U16 && mss < U16 && room2 < U16 && mss2 < U16
      ensures Valid() && fresh(a) && fresh(b)
      ensures x == Stream.Established(isn, room, mss)
    {
      hide Stream.Inv;
      hide TcpPcb.SenderValid;
      hide TcpPcb.ReceiverValid;
      hide S.Fresh;
      Stream.EstablishedInv(isn, room, mss);
      a := new TcpPcb(isn, irs, room, mss);
      b := new TcpPcb(irs, isn, room2, mss2);
      net, acks := {}, {};
      x := Stream.Established(isn, room, mss);
    }

    method Write(data: seq<byte>, copy: bool, memory: nat) returns (ok: bool)
      requires Valid()
      modifies this, a
      ensures Valid() && x == Stream.Next(old(x), Stream.Write(data, copy, memory))
    {
      hide TcpPcb.SenderValid;
      hide TcpPcb.ReceiverValid;
      hide Stream.Inv;
      hide S.Write;
      hide S.CanWrite;
      Stream.NextKeeps(x, Stream.Write(data, copy, memory), a.isn, a.room);
      assert x.written + [] == x.written;
      ok := a.TcpWrite(data, copy, memory);
      x := Stream.Next(x, Stream.Write(data, copy, memory));
    }

    method Output(wnd: nat)
      requires Valid()
      modifies this, a
      ensures Valid() && x == Stream.Next(old(x), Stream.Output(wnd))
    {
      hide TcpPcb.SenderValid;
      hide TcpPcb.ReceiverValid;
      hide Stream.Inv;
      hide S.Output;
      hide S.Sent;
      Stream.NextKeeps(x, Stream.Output(wnd), a.isn, a.room);
      SentImages(x.net, S.Sent(x.snd, wnd));
      var sent := a.TcpOutput(wnd);
      net := net + Stream.Elements(sent);
      x := Stream.Next(x, Stream.Output(wnd));
    }

    method Retransmit(wnd: nat)
      requires Valid()
      modifies this, a
      ensures Valid() && x == Stream.Next(old(x), Stream.Retransmit(wnd))
    {
      hide TcpPcb.SenderValid;
      hide TcpPcb.ReceiverValid;
      hide Stream.Inv;
      hide S.Output;
      hide S.Sent;
      Stream.NextKeeps(x, Stream.Retransmit(wnd), a.isn, a.room);
      SentImages(x.net, S.Sent(S.Rexmit(x.snd), wnd));
      SentImages(x.net, []);
      var sent := a.TcpRexmit(false, wnd);
      net := net + Stream.Elements(sent);
      x := Stream.Next(x, Stream.Retransmit(wnd));
    }

    /** The network hands over an acknowledgement it has. */
    method AckArrives(ackno: int, fast: bool, ghost ack: int)
      requires Valid() && InReach(x, Stream.AckArrives(ack, fast)) && ackno == W(ack)
      modifies this, a
      ensures Valid() && x == Stream.Next(old(x), Stream.AckArrives(ack, fast))
    {
      hide TcpPcb.SenderValid;
      hide TcpPcb.ReceiverValid;
      hide Stream.Inv;
      hide S.Ack;
      NeverAhead(x, a.isn, a.room);
      Stream.NextKeeps(x, Stream.AckArrives(ack, fast), a.isn, a.room);
      a.ReceiveAck(ackno, fast, ack);
      x := Stream.Next(x, Stream.AckArrives(ack, fast));
    }

    /** The network hands over a segment it has. */
    method SegmentArrives(s: Seg, memory: bool, ghost u: Seg)
      requires Valid() && InReach(x, Stream.SegmentArrives(u, memory)) && s == WireSeg(u)
      modifies this, b
      ensures Valid() && x == Stream.Next(old(x), Stream.SegmentArrives(u, memory))
    {
      hide TcpPcb.SenderValid;
      hide TcpPcb.ReceiverValid;
      hide Stream.Inv;
      hide R.Receive;
      hide R.Overruns;
      NeverAhead(x, a.isn, a.room);
      Stream.NextKeeps(x, Stream.SegmentArrives(u, memory), a.isn, a.room);
      Stream.NeverOverruns(x, u, memory, a.isn, a.room);
      b.ReceiveData(s, memory, u);
      x := Stream.Next(x, Stream.SegmentArrives(u, memory));
    }

    method SendAck()
      requires Valid()
      modifies this
      ensures Valid() && x == Stream.Next(old(x), Stream.SendAck)
    {
      hide Stream.Inv;
      Stream.NextKeeps(x, Stream.SendAck, a.isn, a.room);
      AckImagesMore(x.acks, x.rcv.nxt);
      acks := acks + {b.rcvNxt};
      x := Stream.Next(x, Stream.SendAck);
    }

    method Recved(n: nat)
      requires Valid()
      modifies this, b
      ensures Valid() && x == Stream.Next(old(x), Stream.Recved(n))
    {
      hide TcpPcb.SenderValid;
      hide TcpPcb.ReceiverValid;
      hide Stream.Inv;
      Stream.NextKeeps(x, Stream.Recved(n), a.isn, a.room);
      b.TcpRecved(n);
      x := Stream.Next(x, Stream.Recved(n));
    }

    method DropQueue()
      requires Valid()
      modifies this, b
      ensures Valid() && x == Stream.Next(old(x), Stream.DropQueue)
    {
      hide TcpPcb.SenderValid;
      hide Stream.Inv;
      Stream.NextKeeps(x, Stream.DropQueue, a.isn, a.room);
      b.DropQueue();
      x := Stream.Next(x, Stream.DropQueue);
    }

    method Step(step: Stream.Step)
      requires Valid() && InReach(x, step)
      modifies this, a, b
      ensures Valid() && x == Stream.Next(old(x), step)
    {
      hide Valid;
      hide Stream.Next;
      match step
      case Write(data, copy, memory) => var ok := Write(data, copy, memory);
      case Output(wnd) => Output(wnd);
      case Retransmit(wnd) => Retransmit(wnd);
      case AckArrives(ack, fast) => AckArrives(W(ack), fast, ack);
      case SegmentArrives(s, memory) => SegmentArrives(WireSeg(s), memory, s);
      case SendAck => SendAck();
      case Recved(n) => Recved(n);
      case DropQueue => DropQueue();
    }

    /** A run of the control blocks does what the run of the unbounded system does. */
    method Play(steps: seq<Stream.Step>)
      requires Valid() && AllInReach(x, steps)
      modifies this, a, b
      ensures Valid() && x == Stream.Run(old(x), steps)
    {
      hide Valid;
      hide Stream.Next;
      hide InReach;
      var rest := steps;
      while rest != []
        invariant Valid() && AllInReach(x, rest) && Stream.Run(x, rest) == Stream.Run(old(x), steps)
        decreases |rest|
      {
        Step(rest[0]);
        rest := rest[1..];
      }
    }

    /** End to end, in terms of what is in memory: the delivered bytes are a prefix of the written ones,
        and the sender's queues, from the 32-bit number the receiver expects on, are the missing bytes. */
    lemma EndToEnd()
      requires Valid()
      ensures var q := a.unacked + a.unsent;
              var start := if q == [] then a.sndLbb else q[0].seqno;
              var have := W(b.rcvNxt - start);
              && b.delivered <= a.written
              && have <= |S.Bytes(q)|
              && a.written == b.delivered + S.Bytes(q)[have..]
    {
      hide W;
      hide S.Inv;
      hide S.Bytes;
      hide R.QueueOk;
      hide Stream.Inv;
      Stream.DeliveredAndQueued(x, a.isn, a.room);
      WireBytes(x.snd.Queue());
      WireTxJoin(x.snd.unacked, x.snd.unsent);
      QueueInReach(x, a.isn, a.room);
      WireDifference(x.rcv.nxt, x.snd.Start());
      WireSmall(x.rcv.nxt - x.snd.Start());
    }
  }

  lemma QueueInReach(x: Stream.System, isn: int, room: nat)
    requires Stream.Inv(x, isn, room)
    ensures 0 <= x.rcv.nxt - x.snd.Start() < U32
  {
    hide Stream.NetOk;
    hide Stream.NetFits;
    hide Stream.StartsInNet;
    StartIsNear(x.snd, x.written, isn, room);
    RcvInReach(x, isn, room);
    Stream.DeliveredAndQueued(x, isn, room);
  }

  lemma {:induction false} WireBytes(q: seq<S.TxSeg>)
    ensures S.Bytes(WireTx(q)) == S.Bytes(q)
    decreases |q|
  {
    if q != [] {
      assert WireTx(q)[1..] == WireTx(q[1..]);
      WireBytes(q[1..]);
    }
  }

  /** Every run of two control blocks that starts with an established connection: what is delivered is a
      prefix of what is written, and the sender still has the rest. */
  method Converse(isn: int, room: nat, mss: nat, irs: int, steps: seq<Stream.Step>) returns (c: Connection)
    requires 0 <= isn < U32 && 0 <= irs < U32 && room < U16 && mss < U16
    requires AllInReach(Stream.Established(isn, room, mss), steps)
    ensures fresh(c) && c.Valid() && c.x == Stream.Run(Stream.Established(isn, room, mss), steps)
    ensures c.b.delivered <= c.a.written
    ensures c.a.unacked + c.a.unsent == [] ==> c.b.delivered == c.a.written
  {
    hide AllInReach;
    hide Stream.Run;
    hide Stream.Established;
    hide W;
    hide Connection.Valid;
    c := new Connection(isn, room, mss, irs, 0, 0);
    c.Play(steps);
    c.EndToEnd();
    assert c.b.delivered + [] == c.b.delivered;
  }
}
