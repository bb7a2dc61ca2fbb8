/** The search for a local port: tcp_new_port, which goes round a range, and the one in udp_bind. */
module Ports {
  const START := 4096
  const END := 0x7fff
  const RANGE := END - START + 1

  predicate InRange(p: int) { START <= p <= END }

  /** The port after p, round the range. */
  function After(p: int): int {
    if p + 1 > END then START else p + 1
  }

  /** How many ports are passed on the way from behind `from` to p. */
  function Passed(from: int, p: int): (k: int)
    requires InRange(from) && InRange(p)
    ensures 0 <= k < RANGE
  {
    if p > from then p - from - 1 else p - from - 1 + RANGE
  }

  lemma PassedOne(from: int, p: int)
    requires InRange(from) && InRange(p)
    ensures InRange(After(p))
    ensures Passed(from, After(from)) == 0
    ensures p != from ==> Passed(from, After(p)) == Passed(from, p) + 1
    ensures p == from ==> Passed(from, p) == RANGE - 1
  {
  }

  /** The ports in use. */
  function Used(pcbs: seq<int>): set<int> {
    set p | p in pcbs
  }

  lemma {:induction false} UsedCount(pcbs: seq<int>)
    ensures |Used(pcbs)| <= |pcbs|
  {
    if pcbs != [] {
      UsedCount(pcbs[1..]);
      assert Used(pcbs) == {pcbs[0]} + Used(pcbs[1..]);
    } else {
      assert Used(pcbs) == {};
    }
  }

  /** Distinct ports that are all in use are not more than the PCBs. */
  lemma Pigeonhole(tried: set<int>, pcbs: seq<int>)
    requires tried <= Used(pcbs)
    ensures |tried| <= |pcbs|
  {
    UsedCount(pcbs);
    SubsetCount(tried, Used(pcbs));
  }

  lemma SubsetCount(a: set<int>, b: set<int>)
    requires a <= b
    ensures |a| <= |b|
  {
    assert b == a + (b - a);
  }

  /** Whether a port is that of some PCB on a list. */
  method OnList(pcbs: seq<int>, port: int) returns (found: bool)
    ensures found == (port in pcbs)
  {
    var i := 0;
    while i < |pcbs|
      invariant i <= |pcbs| && port !in pcbs[..i]
    {
      if pcbs[i] == port {
        return true;
      }
      i := i + 1;
    }
    return false;
  }

  /** The static port of tcp_new_port. */
  class PortCounter {
    var port: int

    predicate Valid()
      reads this
    {
      InRange(port)
    }

    constructor ()
      ensures Valid() && port == START
    {
      port := START;
    }

    /** tcp_new_port, for the local ports of the three lists of PCBs.  While there are fewer PCBs than ports
        the search ends, with the first port after the old one, round the range, that no PCB holds. */
    method NewPort(active: seq<int>, timeWait: seq<int>, listen: seq<int>) returns (p: int)
      requires Valid() && |active| + |timeWait| + |listen| < RANGE
      modifies this
      ensures Valid() && p == port && p !in active && p !in timeWait && p !in listen
      ensures forall q :: InRange(q) && Passed(old(port), q) < Passed(old(port), p) ==> q in active + timeWait + listen
    {
      ghost var all := active + timeWait + listen;
      ghost var tried: set<int> := {};
      ghost var from := port;
      while true
        invariant Valid() && port == (if tried == {} then from else port)
        invariant tried != {} ==> Passed(from, port) == |tried| - 1
        invariant forall q :: q in tried <==> InRange(q) && Passed(from, q) < |tried|
        invariant tried <= Used(all)
        decreases RANGE - |tried|
      {
        Pigeonhole(tried, all);
        PassedOne(from, port);
        port := After(port);
        assert Passed(from, port) == |tried|;
        var busy := OnList(active, port);
        if !busy {
          busy := OnList(timeWait, port);
        }
        if !busy {
          busy := OnList(listen, port);
        }
        if !busy {
          return port;
        }
        ghost var before := tried;
        tried := tried + {port};
        assert |tried| == |before| + 1;
        forall q | InRange(q) && Passed(from, q) == |before| ensures q == port {
          PassedInjective(from, q, port);
        }
      }
    }
  }

  lemma PassedInjective(from: int, p: int, q: int)
    requires InRange(from) && InRange(p) && InRange(q) && Passed(from, p) == Passed(from, q)
    ensures p == q
  {
  }

  datatype Found = Port(port: int) | ErrUse

  /** The search of udp_bind for port 0: from the first port up, with the list walked from its head again
      after every port that is taken.  It finds the lowest free port below the last of the range, and
      fails exactly when there is none. */
  method UdpEphemeral(pcbs: seq<int>) returns (r: Found)
    ensures r.Port? ==> START <= r.port < END && r.port !in pcbs && forall q :: START <= q < r.port ==> q in pcbs
    ensures r == ErrUse <==> forall q :: START <= q < END ==> q in pcbs
  {
    var port := START;
    var i := 0;
    while i < |pcbs| && port != END
      invariant START <= port <= END && 0 <= i <= |pcbs|
      invariant forall q :: START <= q < port ==> q in pcbs
      invariant forall j :: 0 <= j < i ==> pcbs[j] != port
      invariant port == END ==> i < |pcbs|
      decreases END - port, |pcbs| - i
    {
      if pcbs[i] == port {
        port := port + 1;
        i := 0;
      } else {
        i := i + 1;
      }
    }
    if i < |pcbs| {
      return ErrUse;
    }
    r := Port(port);
    assert START <= port < END && port !in pcbs;
  }
}
