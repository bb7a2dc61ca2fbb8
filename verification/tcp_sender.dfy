/**
 * The sending half of the control block over unbounded sequence numbers: tcp_enqueue, tcp_output,
 * tcp_rexmit and the acknowledgement part of tcp_receive.
 */
module Sender {
  import opened Segments

  /** TCP_SND_QUEUELEN: how many buffers may be queued. */
  const SND_QUEUELEN := 8

  /** A queued segment: its first number, its payload, and how many buffers its chain has. */
  datatype TxSeg = TxSeg(seqno: int, data: seq<byte>, clen: nat) {
    function Len(): nat { |data| }
    function End(): int { seqno + |data| }

    /** What the network carries. */
    function Wire(): Seg { Seg(seqno, |data|, data) }
  }

  /** The sender's part of the control block. */
  datatype Snd = Snd(
    unacked: seq<TxSeg>,
    unsent: seq<TxSeg>,
    lbb: int,
    lastack: int,
    nxt: int,
    max: int,
    buf: nat,
    queuelen: nat,
    mss: nat)
  {
    /** Everything that is queued, in the order of the stream. */
    function Queue(): seq<TxSeg> { unacked + unsent }

    function Start(): int { if Queue() == [] then lbb else Queue()[0].seqno }
  }

  // ---------------------------------------------------------------------------------------------
  // Writing

  /** The buffers of n new segments: one each with a copy of the data, or a header and a reference to
      the data each. */
  function BuffersFor(n: nat, copy: bool): nat { if copy then n else 2 * n }

  /** Data cut into segments of at most mss bytes. */
  function CutUp(data: seq<byte>, seqno: int, mss: nat, copy: bool): (q: seq<TxSeg>)
    requires mss > 0
    ensures q != [] && q[0].seqno == seqno
    decreases |data|
  {
    if |data| <= mss then [TxSeg(seqno, data, BuffersFor(1, copy))]
    else [TxSeg(seqno, data[..mss], BuffersFor(1, copy))] + CutUp(data[mss..], seqno + mss, mss, copy)
  }

  /** What is left to cut, which may be nothing. */
  function CutRest(left: seq<byte>, seqno: int, mss: nat, copy: bool): seq<TxSeg>
    requires mss > 0
  {
    if left == [] then [] else CutUp(left, seqno, mss, copy)
  }

  lemma CutRestStep(left: seq<byte>, seqno: int, mss: nat, copy: bool)
    requires mss > 0 && left != []
    ensures var n := if |left| > mss then mss else |left|;
            CutRest(left, seqno, mss, copy) ==
            [TxSeg(seqno, left[..n], BuffersFor(1, copy))] + CutRest(left[n..], seqno + n, mss, copy)
  {
    if |left| <= mss {
      assert left[..|left|] == left;
    }
  }

  lemma BuffersSnoc(q: seq<TxSeg>, seg: TxSeg)
    ensures Buffers(q + [seg]) == Buffers(q) + seg.clen
  {
    BytesJoin(q, [seg]);
    assert [seg][1..] == [];
  }

  /** When the next segment is one too many, the cut does not fit. */
  lemma TooMuch(s: Snd, data: seq<byte>, copy: bool, memory: nat, made: nat, left: seq<byte>, n: int)
    requires left != []
    requires s.mss > 0 ==> |CutUp(data, s.lbb, s.mss, copy)| == made + |CutRest(left, n, s.mss, copy)|
    requires
      || s.queuelen + BuffersFor(made + 1, copy) > SND_QUEUELEN
      || memory < made + 1 + BuffersFor(made + 1, copy)
    ensures !CutFits(s, data, copy, memory)
  {
  }

  lemma CutDone(s: Snd, data: seq<byte>, copy: bool, memory: nat, made: nat)
    requires s.mss > 0 && |CutUp(data, s.lbb, s.mss, copy)| == made
    requires s.queuelen + BuffersFor(made, copy) <= SND_QUEUELEN
    requires memory >= made + BuffersFor(made, copy)
    ensures CutFits(s, data, copy, memory)
  {
  }

  /** Two segments whose chains are concatenated. */
  function Merge(last: TxSeg, first: TxSeg): TxSeg {
    TxSeg(last.seqno, last.data + first.data, last.clen + first.clen)
  }

  /** New segments at the end of the unsent queue; the first is merged into the last unsent one when
      that leaves it no longer than mss. */
  function Append(unsent: seq<TxSeg>, queue: seq<TxSeg>, mss: nat): seq<TxSeg>
    requires queue != []
  {
    var n := |unsent|;
    if n > 0 && unsent[n - 1].Len() != 0 && unsent[n - 1].Len() + queue[0].Len() <= mss then
      unsent[..n - 1] + ([Merge(unsent[n - 1], queue[0])] + queue[1..])
    else
      unsent + queue
  }

  /** Whether the new segments fit the limit on queued buffers and find the memory they need.  One
      segment takes a tcp_seg and its buffers; memory is the number of allocations that succeed before
      one fails. */
  predicate CutFits(s: Snd, data: seq<byte>, copy: bool, memory: nat) {
    && s.mss > 0
    && var n := |CutUp(data, s.lbb, s.mss, copy)|;
       && s.queuelen + BuffersFor(n, copy) <= SND_QUEUELEN
       && n + BuffersFor(n, copy) <= memory
  }

  /** Whether a write goes through: in addition the data fits the send buffer. */
  predicate CanWrite(s: Snd, data: seq<byte>, copy: bool, memory: nat) {
    |data| <= s.buf && s.queuelen < SND_QUEUELEN && CutFits(s, data, copy, memory)
  }

  /** tcp_write of some data on an established connection.  A write that cannot go through leaves the
      control block as it is. */
  function Write(s: Snd, data: seq<byte>, copy: bool, memory: nat): Snd {
    if data == [] || !CanWrite(s, data, copy, memory) then s
    else
      var queue := CutUp(data, s.lbb, s.mss, copy);
      s.(unsent := Append(s.unsent, queue, s.mss),
         lbb := s.lbb + |data|,
         buf := s.buf - |data|,
         queuelen := s.queuelen + BuffersFor(|queue|, copy))
  }

  // ---------------------------------------------------------------------------------------------
  // Sending

  predicate Fits(s: Snd, wnd: nat) {
    s.unsent != [] && s.unsent[0].End() - s.lastack <= wnd
  }

  /** Sends the first unsent segment. */
  function SendFirst(s: Snd): Snd
    requires s.unsent != []
  {
    var seg := s.unsent[0];
    s.(unacked := if seg.Len() > 0 then s.unacked + [seg] else s.unacked,
       unsent := s.unsent[1..],
       nxt := seg.End(),
       max := if s.max < seg.End() then seg.End() else s.max)
  }

  /** tcp_output: sends unsent segments as long as they end inside the window. */
  function Output(s: Snd, wnd: nat): Snd
    decreases |s.unsent|
  {
    if Fits(s, wnd) then Output(SendFirst(s), wnd) else s
  }

  /** The segments that tcp_output hands to the network. */
  function Sent(s: Snd, wnd: nat): seq<Seg>
    decreases |s.unsent|
  {
    if Fits(s, wnd) then [s.unsent[0].Wire()] + Sent(SendFirst(s), wnd) else []
  }

  /** tcp_rexmit without its call of tcp_output: everything unacknowledged is unsent again. */
  function Rexmit(s: Snd): Snd {
    if s.unacked == [] then s
    else s.(unacked := [], unsent := s.unacked + s.unsent, nxt := s.unacked[0].seqno)
  }

  // ---------------------------------------------------------------------------------------------
  // Acknowledgements

  /** The first unacknowledged segment is freed. */
  function TakeUnacked(s: Snd): Snd
    requires s.unacked != []
  {
    s.(unacked := s.unacked[1..], queuelen := Drop(s.queuelen, s.unacked[0].clen))
  }

  /** The first unsent segment is freed; what is sent next starts with the one after it. */
  function TakeUnsent(s: Snd): Snd
    requires s.unsent != []
  {
    s.(unsent := s.unsent[1..],
       queuelen := Drop(s.queuelen, s.unsent[0].clen),
       nxt := if |s.unsent| > 1 then s.unsent[1].seqno else s.nxt)
  }

  function PruneUnacked(s: Snd, ack: int): Snd
    decreases |s.unacked|
  {
    if s.unacked != [] && s.unacked[0].End() <= ack then PruneUnacked(TakeUnacked(s), ack) else s
  }

  function PruneUnsent(s: Snd, ack: int): Snd
    decreases |s.unsent|
  {
    if s.unsent != [] && s.unsent[0].End() <= ack <= s.max then PruneUnsent(TakeUnsent(s), ack) else s
  }

  /** Subtraction in the eight bits of snd_queuelen. */
  function Drop(queuelen: nat, clen: nat): nat {
    (queuelen - clen) % 256
  }

  /** The acknowledged bytes become free send buffer. */
  function Advance(s: Snd, ack: int): Snd {
    s.(lastack := ack, buf := (s.buf + (ack - s.lastack)) % U16)
  }

  /** The acknowledgement part of tcp_receive.  A repeated acknowledgement may start a fast
      retransmission, which is not followed by output while input is processed. */
  function Ack(s: Snd, ack: int, fast: bool): Snd {
    var s' :=
      if s.lastack == ack then
        if fast then Rexmit(s) else s
      else if s.lastack < ack <= s.max then
        PruneUnacked(Advance(s, ack), ack)
      else s;
    PruneUnsent(s', ack)
  }

  // ---------------------------------------------------------------------------------------------
  // What the queues keep

  /** Segments that cover the numbers from lo to hi without a gap or an overlap. */
  ghost predicate Tiles(q: seq<TxSeg>, lo: int, hi: int)
    decreases |q|
  {
    if q == [] then lo == hi
    else q[0].seqno == lo && q[0].Len() > 0 && Tiles(q[1..], q[0].End(), hi)
  }

  function Bytes(q: seq<TxSeg>): seq<byte> {
    if q == [] then [] else q[0].data + Bytes(q[1..])
  }

  function Buffers(q: seq<TxSeg>): nat {
    if q == [] then 0 else q[0].clen + Buffers(q[1..])
  }

  /** The two queues are one tiling of the numbers up to lbb, and hold the written bytes that are not
      acknowledged; segments are at most mss long; what is unacknowledged has been sent; and the
      counters of the control block count what they are meant to count. */
  ghost predicate Queued(s: Snd, written: seq<byte>, isn: int, room: nat) {
    && s.lbb == isn + |written|
    && isn <= s.Start() <= s.lastack <= s.max <= s.lbb
    && Tiles(s.Queue(), s.Start(), s.lbb)
    && Bytes(s.Queue()) == written[s.Start() - isn..]
    && (forall q <- s.Queue() :: q.Len() <= s.mss)
    && (forall q <- s.unacked :: q.End() <= s.max)
    && s.buf + (s.lbb - s.lastack) == room < U16
    && s.queuelen == Buffers(s.Queue()) <= SND_QUEUELEN
  }

  /** In addition no queued segment is wholly acknowledged. */
  ghost predicate Inv(s: Snd, written: seq<byte>, isn: int, room: nat) {
    && Queued(s, written, isn, room)
    && (s.Queue() != [] ==> s.lastack < s.Queue()[0].End())
  }

  /** The sender just after the handshake, with room bytes of send buffer. */
  function Fresh(isn: int, room: nat, mss: nat): Snd {
    Snd([], [], isn, isn, isn, isn, room, 0, mss)
  }

  lemma FreshInv(isn: int, room: nat, mss: nat)
    requires room < U16
    ensures Inv(Fresh(isn, room, mss), [], isn, room)
  {
    hide Tiles;
    hide Bytes;
    hide Buffers;
    NothingQueued(isn);
    var s, none: seq<byte> := Fresh(isn, room, mss), [];
    assert s.Queue() == [] && s.Start() == isn && none[0..] == [];
  }

  lemma NothingQueued(n: int)
    ensures Tiles([], n, n) && Bytes([]) == [] && Buffers([]) == 0
  {
  }

  // ---------------------------------------------------------------------------------------------
  // Queues

  lemma {:induction false} TilesJoin(a: seq<TxSeg>, b: seq<TxSeg>, lo: int, mid: int, hi: int)
    requires Tiles(a, lo, mid) && Tiles(b, mid, hi)
    ensures Tiles(a + b, lo, hi)
    decreases |a|
  {
    if a == [] {
      assert a + b == b;
    } else {
      assert (a + b)[1..] == a[1..] + b;
      TilesJoin(a[1..], b, a[0].End(), mid, hi);
    }
  }

  lemma {:induction false} TilesSplit(q: seq<TxSeg>, i: nat, lo: int, hi: int) returns (mid: int)
    requires Tiles(q, lo, hi) && i <= |q|
    ensures Tiles(q[..i], lo, mid) && Tiles(q[i..], mid, hi)
    ensures lo <= mid <= hi
    ensures i < |q| ==> q[i].seqno == mid
    ensures i > 0 ==> q[i - 1].End() == mid
    decreases |q|
  {
    if i == 0 {
      assert q[..0] == [] && q[0..] == q;
      mid := lo;
      TilesBounds(q, lo, hi);
    } else {
      mid := TilesSplit(q[1..], i - 1, q[0].End(), hi);
      assert q[..i][1..] == q[1..][..i - 1] && q[1..][i - 1..] == q[i..];
    }
  }

  /** Every segment of a tiling lies inside it, and any two lie one after the other. */
  lemma {:induction false} TilesBounds(q: seq<TxSeg>, lo: int, hi: int)
    requires Tiles(q, lo, hi)
    ensures lo <= hi
    ensures forall i :: 0 <= i < |q| ==> lo <= q[i].seqno < q[i].End() <= hi
    ensures forall i, j :: 0 <= i < j < |q| ==> q[i].End() <= q[j].seqno
    decreases |q|
  {
    if q != [] {
      TilesBounds(q[1..], q[0].End(), hi);
      forall i | 0 < i < |q| ensures q[0].End() <= q[i].seqno < q[i].End() <= hi {
        assert q[i] == q[1..][i - 1];
      }
      forall i, j | 0 < i < j < |q| ensures q[i].End() <= q[j].seqno {
        assert q[i] == q[1..][i - 1] && q[j] == q[1..][j - 1];
      }
    }
  }

  lemma {:induction false} BytesJoin(a: seq<TxSeg>, b: seq<TxSeg>)
    ensures Bytes(a + b) == Bytes(a) + Bytes(b)
    ensures Buffers(a + b) == Buffers(a) + Buffers(b)
    decreases |a|
  {
    if a == [] {
      assert a + b == b;
    } else {
      assert (a + b)[1..] == a[1..] + b;
      BytesJoin(a[1..], b);
    }
  }

  /** A tiling holds one byte per number. */
  lemma {:induction false} TilesBytes(q: seq<TxSeg>, lo: int, hi: int)
    requires Tiles(q, lo, hi)
    ensures |Bytes(q)| == hi - lo
    decreases |q|
  {
    if q != [] {
      TilesBytes(q[1..], q[0].End(), hi);
    }
  }

  /** Every queued segment is a piece of the stream. */
  lemma {:induction false} TilesSlices(q: seq<TxSeg>, i: nat, lo: int, hi: int, stream: seq<byte>, isn: int)
    requires Tiles(q, lo, hi) && i < |q|
    requires isn <= lo <= hi && hi - isn <= |stream|
    requires Bytes(q) == stream[lo - isn..hi - isn]
    requires q[i].Len() < U16
    ensures q[i].Wire().SliceOf(stream, isn)
    decreases |q|
  {
    TilesBounds(q, lo, hi);
    TilesBytes(q[1..], q[0].End(), hi);
    assert q[0].data == Bytes(q)[..q[0].Len()] == stream[lo - isn..q[0].End() - isn];
    if i > 0 {
      assert Bytes(q[1..]) == Bytes(q)[q[0].Len()..] == stream[q[0].End() - isn..hi - isn];
      TilesSlices(q[1..], i - 1, q[0].End(), hi, stream, isn);
    }
  }

  // ---------------------------------------------------------------------------------------------
  // Writing keeps the queues

  lemma {:induction false} CutUpTiles(data: seq<byte>, seqno: int, mss: nat, copy: bool)
    requires mss > 0 && data != []
    ensures var q := CutUp(data, seqno, mss, copy);
            && Tiles(q, seqno, seqno + |data|)
            && Bytes(q) == data
            && Buffers(q) == BuffersFor(|q|, copy)
            && forall x <- q :: x.Len() <= mss
    decreases |data|
  {
    hide Tiles;
    hide Buffers;
    hide Bytes;
    if |data| <= mss {
      var first := TxSeg(seqno, data, BuffersFor(1, copy));
      EmptyTiles(seqno + |data|);
      ConsTiles(first, [], seqno + |data|);
      assert [first] + [] == [first] && data + [] == data;
    } else {
      CutUpTiles(data[mss..], seqno + mss, mss, copy);
      ConsTiles(TxSeg(seqno, data[..mss], BuffersFor(1, copy)), CutUp(data[mss..], seqno + mss, mss, copy),
          seqno + |data|);
      assert data[..mss] + data[mss..] == data;
    }
  }

  lemma EmptyTiles(n: int)
    ensures Tiles([], n, n) && Bytes([]) == [] && Buffers([]) == 0
  {
  }

  /** One more segment in front of a tiling. */
  lemma ConsTiles(first: TxSeg, rest: seq<TxSeg>, hi: int)
    requires first.Len() > 0 && Tiles(rest, first.End(), hi)
    ensures var q := [first] + rest;
            Tiles(q, first.seqno, hi) && Bytes(q) == first.data + Bytes(rest)
                && Buffers(q) == first.clen + Buffers(rest)
  {
    assert ([first] + rest)[1..] == rest;
  }

  lemma MergedTiles(last: TxSeg, queue: seq<TxSeg>, m: int, hi: int)
    requires last.seqno == m && last.Len() > 0
    requires queue != [] && Tiles(queue, last.End(), hi)
    ensures var q := [Merge(last, queue[0])] + queue[1..];
            Tiles(q, m, hi) && Bytes(q) == last.data + Bytes(queue) && Buffers(q) == last.clen + Buffers(queue)
  {
    var q := [Merge(last, queue[0])] + queue[1..];
    assert q[1..] == queue[1..];
    assert last.data + queue[0].data + Bytes(queue[1..]) == last.data + (queue[0].data + Bytes(queue[1..]));
  }

  lemma MergeTiles(front: seq<TxSeg>, last: TxSeg, queue: seq<TxSeg>, lo: int, m: int, hi: int)
    requires Tiles(front, lo, m) && last.seqno == m && last.Len() > 0
    requires queue != [] && Tiles(queue, last.End(), hi)
    ensures var q := front + ([Merge(last, queue[0])] + queue[1..]);
            && Tiles(q, lo, hi)
            && Bytes(q) == Bytes(front) + (last.data + Bytes(queue))
            && Buffers(q) == Buffers(front) + last.clen + Buffers(queue)
  {
    var tail := [Merge(last, queue[0])] + queue[1..];
    MergedTiles(last, queue, m, hi);
    TilesJoin(front, tail, lo, m, hi);
    BytesJoin(front, tail);
  }

  /** Appending keeps segments short. */
  lemma AppendKeepsShort(unsent: seq<TxSeg>, queue: seq<TxSeg>, mss: nat)
    requires queue != []
    requires forall x <- unsent :: x.Len() <= mss
    requires forall x <- queue :: x.Len() <= mss
    ensures forall x <- Append(unsent, queue, mss) :: x.Len() <= mss
  {
  }

  lemma AppendTiles(unsent: seq<TxSeg>, queue: seq<TxSeg>, mss: nat, lo: int, mid: int, hi: int)
    requires queue != []
    requires Tiles(unsent, lo, mid) && Tiles(queue, mid, hi)
    ensures var q := Append(unsent, queue, mss);
            && Tiles(q, lo, hi)
            && Bytes(q) == Bytes(unsent) + Bytes(queue)
            && Buffers(q) == Buffers(unsent) + Buffers(queue)
  {
    var n := |unsent|;
    if n > 0 && unsent[n - 1].Len() != 0 && unsent[n - 1].Len() + queue[0].Len() <= mss {
      var m := LastTile(unsent, lo, mid);
      MergeTiles(unsent[..n - 1], unsent[n - 1], queue, lo, m, hi);
      assert Bytes(unsent[..n - 1]) + unsent[n - 1].data + Bytes(queue)
          == Bytes(unsent[..n - 1]) + (unsent[n - 1].data + Bytes(queue));
    } else {
      TilesJoin(unsent, queue, lo, mid, hi);
      BytesJoin(unsent, queue);
    }
  }

  /** The last segment of a tiling, taken off. */
  lemma LastTile(q: seq<TxSeg>, lo: int, hi: int) returns (m: int)
    requires q != [] && Tiles(q, lo, hi)
    ensures Tiles(q[..|q| - 1], lo, m) && q[|q| - 1].seqno == m && q[|q| - 1].End() == hi
    ensures Bytes(q) == Bytes(q[..|q| - 1]) + q[|q| - 1].data
    ensures Buffers(q) == Buffers(q[..|q| - 1]) + q[|q| - 1].clen
  {
    var front, last := q[..|q| - 1], q[|q| - 1];
    m := TilesSplit(q, |q| - 1, lo, hi);
    assert q[|q| - 1..] == [last] && q == front + [last];
    BytesJoin(front, [last]);
    assert Tiles([last], m, hi) && [last][1..] == [] && last.data + [] == last.data;
  }

  /** The two queues of a sender, each with its own tiling. */
  lemma QueueSplit(s: Snd) returns (mid: int)
    requires Tiles(s.Queue(), s.Start(), s.lbb)
    ensures Tiles(s.unacked, s.Start(), mid) && Tiles(s.unsent, mid, s.lbb)
    ensures Bytes(s.Queue()) == Bytes(s.unacked) + Bytes(s.unsent)
    ensures Buffers(s.Queue()) == Buffers(s.unacked) + Buffers(s.unsent)
    ensures s.Start() <= mid <= s.lbb
  {
    mid := TilesSplit(s.Queue(), |s.unacked|, s.Start(), s.lbb);
    assert s.Queue()[..|s.unacked|] == s.unacked && s.Queue()[|s.unacked|..] == s.unsent;
    BytesJoin(s.unacked, s.unsent);
  }

  /** New segments at the end of the queues. */
  lemma AppendToQueue(s: Snd, queue: seq<TxSeg>, hi: int)
    requires Tiles(s.Queue(), s.Start(), s.lbb)
    requires queue != [] && Tiles(queue, s.lbb, hi)
    ensures var q := s.unacked + Append(s.unsent, queue, s.mss);
            && Tiles(q, s.Start(), hi)
            && Bytes(q) == Bytes(s.Queue()) + Bytes(queue)
            && Buffers(q) == Buffers(s.Queue()) + Buffers(queue)
  {
    var mid := QueueSplit(s);
    var unsent := Append(s.unsent, queue, s.mss);
    AppendTiles(s.unsent, queue, s.mss, mid, s.lbb, hi);
    TilesJoin(s.unacked, unsent, s.Start(), mid, hi);
    BytesJoin(s.unacked, unsent);
    assert Bytes(s.unacked) + (Bytes(s.unsent) + Bytes(queue)) == Bytes(s.Queue()) + Bytes(queue);
  }

  /** A write adds its data at the end of what is queued, in segments of at most mss bytes. */
  lemma WriteKeeps(s: Snd, data: seq<byte>, copy: bool, memory: nat, written: seq<byte>, isn: int, room: nat)
    requires Inv(s, written, isn, room)
    ensures var s' := Write(s, data, copy, memory);
            var more := if CanWrite(s, data, copy, memory) then data else [];
            && Inv(s', written + more, isn, room)
            && s'.Start() == s.Start() && s'.lastack == s.lastack && s'.max == s.max && s'.mss == s.mss
  {
    hide CutUp;
    hide Append;
    hide Tiles;
    hide Bytes;
    hide Buffers;
    if data == [] || !CanWrite(s, data, copy, memory) {
      assert written + [] == written;
    } else {
      var queue := CutUp(data, s.lbb, s.mss, copy);
      var s' := Write(s, data, copy, memory);
      CutUpTiles(data, s.lbb, s.mss, copy);
      AppendToQueue(s, queue, s'.lbb);
      AppendKeepsShort(s.unsent, queue, s.mss);
      WriteStart(s, queue);
      assert (written + data)[s.Start() - isn..] == written[s.Start() - isn..] + data;
    }
  }

  /** Appending does not move the start of the queues. */
  lemma WriteStart(s: Snd, queue: seq<TxSeg>)
    requires queue != [] && queue[0].seqno == s.lbb
    ensures var q := s.unacked + Append(s.unsent, queue, s.mss);
            && q != []
            && q[0].seqno == s.Start()
            && (s.Queue() != [] ==> q[0].End() >= s.Queue()[0].End())
            && (s.Queue() == [] ==> q[0] == queue[0])
  {
    if s.unacked == [] && s.unsent != [] {
      AppendFirst(s.unsent, queue, s.mss);
    }
  }

  /** What a write does to the fields, and to the number of queued buffers. */
  lemma WriteFields(s: Snd, data: seq<byte>, copy: bool, memory: nat)
    requires data != [] && CanWrite(s, data, copy, memory)
    ensures var q := CutUp(data, s.lbb, s.mss, copy);
            && Write(s, data, copy, memory) == s.(unsent := Append(s.unsent, q, s.mss), lbb := s.lbb + |data|,
                                                  buf := s.buf - |data|, queuelen := s.queuelen + BuffersFor(|q|, copy))
            && Buffers(Append(s.unsent, q, s.mss)) == Buffers(s.unsent) + BuffersFor(|q|, copy)
  {
    CutUpTiles(data, s.lbb, s.mss, copy);
    AppendBuffers(s.unsent, CutUp(data, s.lbb, s.mss, copy), s.mss);
  }

  lemma AppendBuffers(unsent: seq<TxSeg>, queue: seq<TxSeg>, mss: nat)
    requires queue != []
    ensures Buffers(Append(unsent, queue, mss)) == Buffers(unsent) + Buffers(queue)
  {
    var n := |unsent|;
    if n > 0 && unsent[n - 1].Len() != 0 && unsent[n - 1].Len() + queue[0].Len() <= mss {
      var tail := [Merge(unsent[n - 1], queue[0])] + queue[1..];
      BytesJoin(unsent[..n - 1], tail);
      assert tail[1..] == queue[1..];
      BuffersSnoc(unsent[..n - 1], unsent[n - 1]);
      assert unsent[..n - 1] + [unsent[n - 1]] == unsent;
    } else {
      BytesJoin(unsent, queue);
    }
  }

  /** Appending keeps the first segment in place; it may only grow. */
  lemma AppendFirst(unsent: seq<TxSeg>, queue: seq<TxSeg>, mss: nat)
    requires queue != [] && unsent != []
    ensures Append(unsent, queue, mss) != []
    ensures Append(unsent, queue, mss)[0].seqno == unsent[0].seqno
    ensures Append(unsent, queue, mss)[0].End() >= unsent[0].End()
  {
  }

  // ---------------------------------------------------------------------------------------------
  // Sending and retransmitting keep the queues

  lemma SendFirstKeeps(s: Snd, written: seq<byte>, isn: int, room: nat)
    requires Inv(s, written, isn, room) && s.unsent != []
    ensures Inv(SendFirst(s), written, isn, room)
    ensures SendFirst(s).Queue() == s.Queue()
  {
    hide Tiles;
    hide Bytes;
    hide Buffers;
    assert s.unacked + [s.unsent[0]] + s.unsent[1..] == s.unacked + s.unsent;
    TilesBounds(s.Queue(), s.Start(), s.lbb);
    assert s.Queue()[|s.unacked|] == s.unsent[0];
  }

  /** Sending moves segments between the queues and changes nothing else about them. */
  lemma {:induction false} OutputKeeps(s: Snd, wnd: nat, written: seq<byte>, isn: int, room: nat)
    requires Inv(s, written, isn, room)
    ensures Inv(Output(s, wnd), written, isn, room)
    ensures Output(s, wnd).Queue() == s.Queue()
    ensures s.max <= Output(s, wnd).max
    ensures Output(s, wnd) == s.(unacked := Output(s, wnd).unacked, unsent := Output(s, wnd).unsent,
                                 nxt := Output(s, wnd).nxt, max := Output(s, wnd).max)
    decreases |s.unsent|
  {
    if Fits(s, wnd) {
      SendFirstKeeps(s, written, isn, room);
      OutputKeeps(SendFirst(s), wnd, written, isn, room);
    }
  }

  /** What is sent is queued, lies inside the window, and counts for snd_max. */
  lemma {:induction false} SentIsQueued(s: Snd, wnd: nat, written: seq<byte>, isn: int, room: nat)
    requires Inv(s, written, isn, room)
    ensures forall x <- Sent(s, wnd) ::
              && (exists q <- s.Queue() :: x == q.Wire())
              && x.End() <= Output(s, wnd).max
              && x.End() - s.lastack <= wnd
    decreases |s.unsent|
  {
    if Fits(s, wnd) {
      SendFirstKeeps(s, written, isn, room);
      SentIsQueued(SendFirst(s), wnd, written, isn, room);
      OutputKeeps(SendFirst(s), wnd, written, isn, room);
      assert s.unsent[0] in s.Queue();
    }
  }

  /** Retransmission leaves the sequence of queued segments as it is. */
  lemma RexmitKeeps(s: Snd, written: seq<byte>, isn: int, room: nat)
    requires Inv(s, written, isn, room)
    ensures Inv(Rexmit(s), written, isn, room)
    ensures Rexmit(s).Queue() == s.Queue()
    ensures Rexmit(s) == s.(unacked := Rexmit(s).unacked, unsent := Rexmit(s).unsent, nxt := Rexmit(s).nxt)
  {
    assert [] + (s.unacked + s.unsent) == s.Queue();
  }

  // ---------------------------------------------------------------------------------------------
  // Acknowledgements remove exactly what they cover

  /** How many segments at the front of a queue end at or below a number. */
  function Covered(q: seq<TxSeg>, ack: int): (n: nat)
    ensures n <= |q|
    ensures forall k :: 0 <= k < n ==> q[k].End() <= ack
    ensures n < |q| ==> ack < q[n].End()
  {
    if q != [] && q[0].End() <= ack then 1 + Covered(q[1..], ack) else 0
  }

  /** Dropping the first segment of the queues when it is acknowledged. */
  lemma DropFirstKeeps(s: Snd, s': Snd, written: seq<byte>, isn: int, room: nat)
    requires Queued(s, written, isn, room)
    requires s.Queue() != [] && s.Queue()[0].End() <= s.lastack
    requires s'.Queue() == s.Queue()[1..] && s'.queuelen == Drop(s.queuelen, s.Queue()[0].clen)
    requires s'.lbb == s.lbb && s'.lastack == s.lastack && s'.max == s.max && s'.buf == s.buf && s'.mss == s.mss
    requires forall q <- s'.unacked :: q in s.unacked
    ensures Queued(s', written, isn, room)
  {
    var first := s.Queue()[0];
    assert Tiles(s'.Queue(), first.End(), s.lbb);
    assert s'.Start() == first.End();
    assert Bytes(s'.Queue()) == Bytes(s.Queue())[first.Len()..];
    assert Bytes(s'.Queue()) == written[first.End() - isn..];
    assert forall q <- s'.Queue() :: q in s.Queue();
    assert s'.queuelen == s.queuelen - first.clen;
  }

  lemma {:induction false} PruneUnackedKeeps(s: Snd, written: seq<byte>, isn: int, room: nat)
    requires Queued(s, written, isn, room)
    ensures var s' := PruneUnacked(s, s.lastack);
            && Queued(s', written, isn, room)
            && s' == s.(unacked := s.unacked[Covered(s.unacked, s.lastack)..], queuelen := s'.queuelen)
    decreases |s.unacked|
  {
    hide Tiles;
    hide Bytes;
    hide Buffers;
    if s.unacked != [] && s.unacked[0].End() <= s.lastack {
      var s1 := TakeUnacked(s);
      assert s1.Queue() == s.Queue()[1..];
      DropFirstKeeps(s, s1, written, isn, room);
      PruneUnackedKeeps(s1, written, isn, room);
      var n := Covered(s1.unacked, s.lastack);
      assert s.unacked[1..][n..] == s.unacked[n + 1..];
    }
  }

  lemma {:induction false} PruneUnsentKeeps(s: Snd, written: seq<byte>, isn: int, room: nat)
    requires Queued(s, written, isn, room)
    requires s.unacked == []
    ensures var s' := PruneUnsent(s, s.lastack);
            && Queued(s', written, isn, room)
            && s' == s.(unsent := s.unsent[Covered(s.unsent, s.lastack)..], queuelen := s'.queuelen, nxt := s'.nxt)
    decreases |s.unsent|
  {
    hide Queued;
    if s.unsent != [] && s.unsent[0].End() <= s.lastack {
      var s1 := TakeUnsent(s);
      assert s.Queue() == s.unsent && s1.Queue() == s.Queue()[1..];
      DropFirstKeeps(s, s1, written, isn, room);
      PruneUnsentKeeps(s1, written, isn, room);
      var n := Covered(s1.unsent, s.lastack);
      assert s.unsent[1..][n..] == s.unsent[n + 1..];
    }
  }

  lemma {:induction false} PruneUnackedStops(s: Snd, ack: int)
    ensures var s' := PruneUnacked(s, ack); s'.unacked != [] ==> ack < s'.unacked[0].End()
    decreases |s.unacked|
  {
    if s.unacked != [] && s.unacked[0].End() <= ack {
      PruneUnackedStops(TakeUnacked(s), ack);
    }
  }

  /** An acknowledgement below everything that is queued removes nothing. */
  lemma NothingToPrune(s: Snd, ack: int)
    requires Tiles(s.Queue(), s.Start(), s.lbb)
    requires s.Queue() != [] ==> ack < s.Queue()[0].End()
    ensures PruneUnsent(s, ack) == s
    ensures Covered(s.Queue(), ack) == 0
  {
    if s.unsent != [] {
      TilesBounds(s.Queue(), s.Start(), s.lbb);
      assert s.Queue()[|s.unacked|] == s.unsent[0];
    }
  }

  lemma {:induction false} CoveredJoin(a: seq<TxSeg>, b: seq<TxSeg>, ack: int)
    ensures Covered(a + b, ack) == if Covered(a, ack) == |a| then |a| + Covered(b, ack) else Covered(a, ack)
    decreases |a|
  {
    if a == [] {
      assert a + b == b;
    } else {
      assert (a + b)[1..] == a[1..] + b;
      if a[0].End() <= ack {
        CoveredJoin(a[1..], b, ack);
      }
    }
  }

  /** The acknowledgement is news: it lies above the last one and not above what was sent. */
  predicate Advances(s: Snd, ack: int) { s.lastack < ack <= s.max }

  lemma AdvanceKeeps(s: Snd, ack: int, written: seq<byte>, isn: int, room: nat)
    requires Inv(s, written, isn, room) && Advances(s, ack)
    ensures var s0 := Advance(s, ack);
            Queued(s0, written, isn, room) && s0.buf == s.buf + (ack - s.lastack)
  {
    var s0 := Advance(s, ack);
    assert s0.Queue() == s.Queue();
  }

  lemma DropOfJoin(a: seq<TxSeg>, b: seq<TxSeg>, n: nat)
    requires n <= |a| + |b|
    ensures (a + b)[n..] == if n <= |a| then a[n..] + b else b[n - |a|..]
  {
  }

  lemma QueueOfUnsent(s: Snd)
    requires s.unacked == []
    ensures s.Queue() == s.unsent
  {
  }

  /** With unacked empty, pruning unsent removes exactly what is covered. */
  lemma PruneOnlyUnsent(s: Snd, written: seq<byte>, isn: int, room: nat)
    requires Queued(s, written, isn, room) && s.unacked == []
    ensures var s' := PruneUnsent(s, s.lastack);
            && Inv(s', written, isn, room)
            && s'.Queue() == s.unsent[Covered(s.unsent, s.lastack)..]
            && s'.lastack == s.lastack && s'.max == s.max && s'.mss == s.mss
  {
    PruneUnsentKeeps(s, written, isn, room);
    QueueOfUnsent(PruneUnsent(s, s.lastack));
  }

  /** All of unacked is covered: pruning goes on in unsent. */
  lemma PruneAllUnacked(s: Snd, written: seq<byte>, isn: int, room: nat)
    requires Queued(s, written, isn, room) && Covered(s.unacked, s.lastack) == |s.unacked|
    ensures var s' := PruneUnsent(PruneUnacked(s, s.lastack), s.lastack);
            && Inv(s', written, isn, room)
            && s'.Queue() == s.Queue()[Covered(s.Queue(), s.lastack)..]
            && s'.lastack == s.lastack && s'.max == s.max && s'.mss == s.mss
  {
    hide Queued;
    hide Inv;
    hide Covered;
    hide PruneUnacked;
    hide PruneUnsent;
    PruneUnackedKeeps(s, written, isn, room);
    PruneOnlyUnsent(PruneUnacked(s, s.lastack), written, isn, room);
    CoveredJoin(s.unacked, s.unsent, s.lastack);
    DropOfJoin(s.unacked, s.unsent, |s.unacked| + Covered(s.unsent, s.lastack));
  }

  /** Some of unacked is left: pruning stops there. */
  lemma PruneSomeUnacked(s: Snd, written: seq<byte>, isn: int, room: nat)
    requires Queued(s, written, isn, room) && Covered(s.unacked, s.lastack) < |s.unacked|
    ensures var s' := PruneUnsent(PruneUnacked(s, s.lastack), s.lastack);
            && Inv(s', written, isn, room)
            && s'.Queue() == s.Queue()[Covered(s.Queue(), s.lastack)..]
            && s'.lastack == s.lastack && s'.max == s.max && s'.mss == s.mss
  {
    hide PruneUnacked;
    hide PruneUnsent;
    hide Tiles;
    hide Bytes;
    hide Buffers;
    PruneUnackedKeeps(s, written, isn, room);
    var s1 := PruneUnacked(s, s.lastack);
    CoveredJoin(s.unacked, s.unsent, s.lastack);
    DropOfJoin(s.unacked, s.unsent, Covered(s.unacked, s.lastack));
    NothingToPrune(s1, s.lastack);
  }

  lemma AckNews(s: Snd, ack: int, fast: bool, written: seq<byte>, isn: int, room: nat)
    requires Inv(s, written, isn, room) && Advances(s, ack)
    ensures Inv(Ack(s, ack, fast), written, isn, room)
    ensures Ack(s, ack, fast).Queue() == s.Queue()[Covered(s.Queue(), ack)..]
    ensures Ack(s, ack, fast).lastack == ack
    ensures Ack(s, ack, fast).max == s.max && Ack(s, ack, fast).mss == s.mss
  {
    hide Queued;
    hide PruneUnacked;
    hide PruneUnsent;
    var s0 := Advance(s, ack);
    AdvanceKeeps(s, ack, written, isn, room);
    if Covered(s0.unacked, ack) == |s0.unacked| {
      PruneAllUnacked(s0, written, isn, room);
    } else {
      PruneSomeUnacked(s0, written, isn, room);
    }
  }

  lemma AckNoNews(s: Snd, ack: int, fast: bool, written: seq<byte>, isn: int, room: nat)
    requires Inv(s, written, isn, room) && !Advances(s, ack)
    ensures Inv(Ack(s, ack, fast), written, isn, room)
    ensures Ack(s, ack, fast).Queue() == s.Queue()
    ensures Ack(s, ack, fast) == if s.lastack == ack && fast then Rexmit(s) else s
  {
    RexmitKeeps(s, written, isn, room);
    if ack <= s.lastack {
      NothingToPrune(s, ack);
      NothingToPrune(Rexmit(s), ack);
    }
  }

  /** An acknowledgement removes exactly the segments it covers when it is news, and none otherwise;
      it keeps the invariant in either case. */
  lemma AckKeeps(s: Snd, ack: int, fast: bool, written: seq<byte>, isn: int, room: nat)
    requires Inv(s, written, isn, room)
    ensures Inv(Ack(s, ack, fast), written, isn, room)
    ensures Ack(s, ack, fast).Queue() == s.Queue()[if Advances(s, ack) then Covered(s.Queue(), ack) else 0..]
    ensures Ack(s, ack, fast).lastack == if Advances(s, ack) then ack else s.lastack
    ensures Ack(s, ack, fast).max == s.max && Ack(s, ack, fast).mss == s.mss
  {
    if Advances(s, ack) {
      AckNews(s, ack, fast, written, isn, room);
    } else {
      AckNoNews(s, ack, fast, written, isn, room);
    }
  }

  /** Acknowledging everything empties the queues. */
  lemma AckOfEverything(s: Snd, fast: bool, written: seq<byte>, isn: int, room: nat)
    requires Inv(s, written, isn, room) && s.max == s.lbb
    ensures Ack(s, s.lbb, fast).Queue() == []
  {
    TilesBounds(s.Queue(), s.Start(), s.lbb);
    AckKeeps(s, s.lbb, fast, written, isn, room);
    if s.Queue() != [] {
      assert s.lastack < s.Queue()[0].End();
      assert Covered(s.Queue(), s.lbb) == |s.Queue()|;
    }
  }
}
