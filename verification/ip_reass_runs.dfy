/** When ip_reass takes the buffer, keeps it and releases it, and several datagrams one after the other. */
module IpReassRuns {
  import opened Bytes
  import opened IpHeader
  import IpFrag
  import opened IpReass

  // ---------------------------------------------------------------------------------------------
  // The buffer

  /** What a packet does to the timer: one of another datagram leaves everything as it is, one that reaches outside
      of the buffer or completes the datagram releases the buffer, and any other keeps it, or takes it. */
  lemma TimerAfter(r: Reass, p: Packet, memory: bool)
    requires Ok(r) && Readable(p)
    ensures var r', h, mine := Receive(r, p, memory).0, Parse(p), r.timer == 0 || SameDatagram(r.head, Parse(p));
            && (!mine ==> r' == r && Receive(r, p, memory).1 == Nothing)
            && (mine && Outside(h) ==> r'.timer == 0 && Receive(r, p, memory).1 == Nothing)
            && (mine && !Outside(h) ==>
                  r'.timer == if Complete(Store(Start(r, h), p)) then 0
                              else if r.timer == 0 then IP_REASS_MAXAGE else r.timer)
  {
    hide Parse;
    hide Store;
    hide Complete;
    assert r.timer == 0 ==> SameDatagram(Start(r, Parse(p)).head, Parse(p));
    StoreTimer(Start(r, Parse(p)), p);
  }

  lemma StoreTimer(r: Reass, p: Packet)
    requires Sized(r)
    ensures Fits(p) ==> Store(r, p).timer == r.timer
  {
    hide Parse;
    hide MarkRange;
    hide IpFrag.Splice;
  }

  /** Whoever hands a datagram up has released the buffer. */
  lemma HandedUpReleases(r: Reass, p: Packet, memory: bool)
    requires Ok(r) && Readable(p) && Receive(r, p, memory).1.Datagram?
    ensures Receive(r, p, memory).0.timer == 0 && memory
  {
    hide Parse;
    hide Store;
    hide Complete;
    hide WholeHead;
  }

  /** n seconds without a packet. */
  function Wait(r: Reass, n: nat): Reass {
    if n == 0 then r else Tick(Wait(r, n - 1))
  }

  /** A datagram is dropped when the timer has run down, and not before. */
  lemma {:induction false} Expires(r: Reass, n: nat)
    ensures Wait(r, n) == r.(timer := if r.timer <= n then 0 else r.timer - n)
  {
    if n > 0 {
      Expires(r, n - 1);
    }
  }

  /** So a datagram has as many seconds as IP_REASS_MAXAGE from its first fragment on. */
  lemma FirstFragmentExpires(r: Reass, p: Packet, memory: bool, n: nat)
    requires Ok(r) && Readable(p) && r.timer == 0 && Receive(r, p, memory).0.timer > 0
    ensures Wait(Receive(r, p, memory).0, n).timer > 0 <==> n < IP_REASS_MAXAGE
  {
    hide Parse;
    hide Outside;
    hide Complete;
    TimerAfter(r, p, memory);
    hide Receive;
    Expires(Receive(r, p, memory).0, n);
  }

  // ---------------------------------------------------------------------------------------------
  // Several datagrams

  /** What is handed up in a run, in order. */
  function HandedUpIn(r: Reass, es: seq<Event>): seq<seq<u8>>
    requires Ok(r) && AllReadable(es)
    decreases |es|
  {
    if es == [] then []
    else
      StepOk(r, es[0]);
      var (r', x) := Step(r, es[0]);
      (if x.Datagram? then [x.bytes] else []) + HandedUpIn(r', es[1..])
  }

  lemma {:induction false} SilentHandsUpNothing(r: Reass, es: seq<Event>)
    requires Ok(r) && AllReadable(es) && Silent(r, es)
    ensures HandedUpIn(r, es) == []
    decreases |es|
  {
    hide Ok;
    hide Step;
    if es != [] {
      StepOk(r, es[0]);
      SilentHandsUpNothing(Step(r, es[0]).0, es[1..]);
    }
  }

  lemma ReadableJoin(a: seq<Event>, b: seq<Event>)
    requires AllReadable(a) && AllReadable(b)
    ensures AllReadable(a + b)
  {
    hide Readable;
  }

  lemma {:induction false} HandedUpJoin(r: Reass, a: seq<Event>, b: seq<Event>)
    requires Ok(r) && AllReadable(a) && AllReadable(b) && AllReadable(a + b)
    ensures HandedUpIn(r, a + b) == HandedUpIn(r, a) + HandedUpIn(Run(r, a), b)
    ensures Run(r, a + b) == Run(Run(r, a), b)
    decreases |a|
  {
    hide Ok;
    hide Step;
    if a == [] {
      assert a + b == b;
    } else {
      assert (a + b)[1..] == a[1..] + b;
      StepOk(r, a[0]);
      HandedUpJoin(Step(r, a[0]).0, a[1..], b);
    }
  }

  /** A datagram on its way: its fragments but the last among other events, and the frame with the last one. */
  datatype Delivery = Delivery(h: Header, data: seq<u8>, mtu: nat, es: seq<Event>, frame: Packet) {
    /** What has to come for FragmentThenReassemble, less than 30 seconds after the first. */
    ghost predicate Comes() {
      && Whole(h, data) && 28 <= mtu <= IpFrag.MAX_MTU
      && var fs := IpFrag.Fragments(h, data, mtu, 0);
         && AllExpected(es, h, fs) && (es != [] ==> es[0].Own?)
         && (forall k :: 0 <= k < |fs| - 1 ==> IpReass.Comes(es, k))
         && fs != [] && IpFrag.Carries(frame, fs[|fs| - 1])
         && Ticks(es) < IP_REASS_MAXAGE
    }

    function Events(): seq<Event> { es + [Own(0, frame)] }

    /** The datagram as it has to come out. */
    function Bytes(): seq<u8>
      requires |data| + IP_HLEN < 0x1_0000
    {
      Wire(WholeHead(h, |data|)) + data
    }
  }

  lemma OneFrame(r: Reass, k: nat, frame: Packet)
    requires Ok(r) && Readable(frame)
    ensures AllReadable([Own(k, frame)]) && Run(r, [Own(k, frame)]) == Receive(r, frame, true).0
    ensures HandedUpIn(r, [Own(k, frame)]) ==
            if Receive(r, frame, true).1.Datagram? then [Receive(r, frame, true).1.bytes] else []
  {
    assert [Own(k, frame)][1..] == [];
    hide Ok;
    hide Readable;
    hide Receive;
    StepOk(r, Own(k, frame));
  }

  /** One datagram is handed up once, and leaves the buffer free. */
  lemma OneDelivered(r: Reass, d: Delivery)
    requires Ok(r) && r.timer == 0 && d.Comes()
    ensures AllReadable(d.Events()) && |d.data| + IP_HLEN < 0x1_0000
    ensures HandedUpIn(r, d.Events()) == [d.Bytes()] && Run(r, d.Events()).timer == 0
  {
    hide Ok;
    hide Receive;
    hide Run;
    hide HandedUpIn;
    hide AllReadable;
    hide WholeHead;
    hide Wire;
    hide Silent;
    FragmentThenReassemble(r, d.h, d.data, d.mtu, d.es, d.frame);
    SilentHandsUpNothing(r, d.es);
    var r1 := Run(r, d.es);
    OneFrame(r1, 0, d.frame);
    HandedUpReleases(r1, d.frame, true);
    ReadableJoin(d.es, [Own(0, d.frame)]);
    HandedUpJoin(r, d.es, [Own(0, d.frame)]);
  }

  function EventsOf(ds: seq<Delivery>): seq<Event> {
    if ds == [] then [] else ds[0].Events() + EventsOf(ds[1..])
  }

  ghost predicate AllCome(ds: seq<Delivery>) {
    forall i :: 0 <= i < |ds| ==> ds[i].Comes()
  }

  function BytesOf(ds: seq<Delivery>): seq<seq<u8>>
    requires forall i :: 0 <= i < |ds| ==> |ds[i].data| + IP_HLEN < 0x1_0000
  {
    if ds == [] then [] else [ds[0].Bytes()] + BytesOf(ds[1..])
  }

  /** Any number of datagrams, one after the other, their fragments in any order but the last: each is handed up,
      exactly once and in this order, with its original data. */
  lemma {:induction false} EachHandedUpOnce(r: Reass, ds: seq<Delivery>)
    requires Ok(r) && r.timer == 0 && AllCome(ds)
    ensures AllReadable(EventsOf(ds)) && forall i :: 0 <= i < |ds| ==> |ds[i].data| + IP_HLEN < 0x1_0000
    ensures HandedUpIn(r, EventsOf(ds)) == BytesOf(ds) && Run(r, EventsOf(ds)).timer == 0
    decreases |ds|
  {
    hide Ok;
    hide HandedUpIn;
    hide Run;
    hide Delivery.Events;
    hide Delivery.Bytes;
    if ds == [] {
      NothingComes(r);
    } else {
      assert ds[0].Comes();
      OneDelivered(r, ds[0]);
      hide Delivery.Comes;
      EachHandedUpOnce(Run(r, ds[0].Events()), ds[1..]);
      ReadableJoin(ds[0].Events(), EventsOf(ds[1..]));
      HandedUpJoin(r, ds[0].Events(), EventsOf(ds[1..]));
      forall i | 0 <= i < |ds| ensures |ds[i].data| + IP_HLEN < 0x1_0000 {
        assert i > 0 ==> ds[i] == ds[1..][i - 1];
      }
    }
  }

  lemma NothingComes(r: Reass)
    requires Ok(r)
    ensures AllReadable([]) && HandedUpIn(r, []) == [] && Run(r, []) == r
  {
  }
}
