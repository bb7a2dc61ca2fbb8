/** What is heard stays in the cache: for as long as ARP_MAXAGE says, whatever happens to the other entries. */
module ArpRuns {
  import opened Arp

  /** The timer alone: a stable entry stays, with its address, until its age reaches MAXAGE, and then is empty. */
  lemma {:induction false} StableAges(t: seq<Entry>, k: nat, n: nat)
    requires k < |t| && t[k].state.Stable? && t[k].ctime < MAXAGE
    ensures Ticks(t, n)[k].state.Stable? <==> t[k].ctime + n < MAXAGE
    ensures t[k].ctime + n < MAXAGE ==> Ticks(t, n)[k] == t[k].(ctime := t[k].ctime + n)
    ensures t[k].ctime + n >= MAXAGE ==> Ticks(t, n)[k].state.Empty?
  {
    if n > 0 {
      StableAges(t, k, n - 1);
    }
  }

  /** The event puts a new address in entry k. */
  predicate Takes(t: seq<Entry>, e: Event, k: nat) {
    match e
    case Hear(ip, _, _) => ip != 0 && Match(t, ip) == |t| && Slot(t) == k
    case Ask(ip) => Match(t, ip) == |t| && Slot(t) == k
    case Timer => false
  }

  /** No event touches an entry that it neither takes nor has the address of, but the timer, which ages it. */
  lemma StepLeaves(c: Cache, e: Event, k: nat)
    requires k < |c.t| && !Takes(c.t, e, k)
    requires e.Hear? ==> e.ip != c.t[k].ip || c.t[k].state.Empty?
    ensures Step(c, e).t[k] == if e.Timer? then Aged(c.t[k]) else c.t[k]
  {
    hide Match;
    hide Slot;
    hide Recycled;
    RecycledAt(c.t, k);
  }

  /** An entry for an address that is in use is made stable and new when the address is heard. */
  lemma HearRenews(c: Cache, ip: int, mac: int, insert: bool, k: nat)
    requires Inv(c) && k < |c.t| && ip != 0 && c.t[k].ip == ip && !c.t[k].state.Empty?
    ensures Step(c, Hear(ip, mac, insert)).t[k] == Entry(ip, mac, Stable, 0)
  {
    MatchAt(c.t, ip, k);
    hide Match;
  }

  function Timers(es: seq<Event>): nat {
    if es == [] then 0 else (if es[0].Timer? then 1 else 0) + Timers(es[1..])
  }

  /** Entry k is not taken, and nothing is heard from the address. */
  ghost predicate LeftAlone(c: Cache, es: seq<Event>, k: nat, ip: int)
    decreases |es|
  {
    es == []
    || (!Takes(c.t, es[0], k) && !(es[0].Hear? && es[0].ip == ip) && LeftAlone(Step(c, es[0]), es[1..], k, ip))
  }

  lemma {:induction false} EmptyStays(c: Cache, es: seq<Event>, k: nat, ip: int)
    requires Inv(c) && k < |c.t| && c.t[k].state.Empty? && LeftAlone(c, es, k, ip)
    ensures |Run(c, es).t| == |c.t| && Run(c, es).t[k].state.Empty?
    decreases |es|
  {
    hide Inv;
    hide Step;
    hide Takes;
    if es != [] {
      StepKeeps(c, es[0]);
      StepLeaves(c, es[0], k);
      EmptyStays(Step(c, es[0]), es[1..], k, ip);
    }
  }

  /** A stable entry stays for as long as its age allows, through any run that leaves it alone. */
  lemma {:induction false} EntryStays(c: Cache, es: seq<Event>, k: nat)
    requires Inv(c) && k < |c.t| && c.t[k].state.Stable? && c.t[k].ctime < MAXAGE
    requires LeftAlone(c, es, k, c.t[k].ip)
    ensures |Run(c, es).t| == |c.t|
    ensures var age, e := c.t[k].ctime + Timers(es), Run(c, es).t[k];
            if age < MAXAGE then e == c.t[k].(ctime := age) else e.state.Empty?
    decreases |es|
  {
    hide Inv;
    hide Step;
    hide Takes;
    if es != [] {
      var c1 := Step(c, es[0]);
      StepKeeps(c, es[0]);
      StepLeaves(c, es[0], k);
      if c1.t[k].state.Stable? {
        EntryStays(c1, es[1..], k);
      } else {
        EmptyStays(c1, es[1..], k, c.t[k].ip);
      }
    }
  }

  /** No entry but k is stable for the address. */
  ghost predicate OnlyAt(t: seq<Entry>, k: nat, ip: int) {
    forall i :: 0 <= i < |t| && i != k && t[i].ip == ip ==> !t[i].state.Stable?
  }

  lemma OnlyAtStep(c: Cache, e: Event, k: nat, ip: int)
    requires Inv(c) && OnlyAt(c.t, k, ip) && !(e.Hear? && e.ip == ip)
    ensures OnlyAt(Step(c, e).t, k, ip)
  {
    hide Match;
    hide Slot;
    hide Recycled;
    forall i | 0 <= i < |c.t| && i != k
      ensures Step(c, e).t[i].ip == ip ==> !Step(c, e).t[i].state.Stable?
    {
      RecycledAt(c.t, i);
    }
  }

  lemma {:induction false} OnlyAtRun(c: Cache, es: seq<Event>, k: nat, ip: int)
    requires Inv(c) && OnlyAt(c.t, k, ip) && LeftAlone(c, es, k, ip)
    ensures OnlyAt(Run(c, es).t, k, ip)
    decreases |es|
  {
    hide Inv;
    hide OnlyAt;
    hide Step;
    hide Takes;
    if es != [] {
      StepKeeps(c, es[0]);
      OnlyAtStep(c, es[0], k, ip);
      OnlyAtRun(Step(c, es[0]), es[1..], k, ip);
    }
  }

  /** An address that is in the cache, and from which nothing more is heard, is found with its hardware address until
      MAXAGE ticks after it was heard, and not after that, whatever else is heard and asked for, as long as the entry
      is not taken for another address. */
  lemma KnownUntilOld(c: Cache, es: seq<Event>, k: nat)
    requires Inv(c) && k < |c.t| && c.t[k].state.Stable?
    requires LeftAlone(c, es, k, c.t[k].ip)
    ensures Lookup(Run(c, es).t, c.t[k].ip) ==
            if c.t[k].ctime + Timers(es) < MAXAGE then Known(c.t[k].mac) else Unknown
  {
    var ip, t' := c.t[k].ip, Run(c, es).t;
    assert Right(c.t[k], c.heard, c.now);
    assert OnlyAt(c.t, k, ip);
    RunKeeps(c, es);
    EntryStays(c, es, k);
    OnlyAtRun(c, es, k, ip);
    hide Run;
    hide LeftAlone;
    if c.t[k].ctime + Timers(es) < MAXAGE {
      MatchAt(t', ip, k);
    }
    hide Match;
  }

  /** So what was heard, if it could be put in the cache, is known for MAXAGE ticks. */
  lemma HeardStaysKnown(c: Cache, ip: int, mac: int, insert: bool, es: seq<Event>)
    requires Inv(c) && ip != 0
    requires Match(c.t, ip) < |c.t| || exists i :: 0 <= i < |c.t| && !c.t[i].state.Pending?
    ensures var c1 := Step(c, Hear(ip, mac, insert));
            && Match(c1.t, ip) < |c1.t| && c1.t[Match(c1.t, ip)] == Entry(ip, mac, Stable, 0)
            && (LeftAlone(c1, es, Match(c1.t, ip), ip) ==>
                  Lookup(Run(c1, es).t, ip) == if Timers(es) < MAXAGE then Known(mac) else Unknown)
  {
    var c1 := Step(c, Hear(ip, mac, insert));
    HeardIsFound(c, ip, mac, insert);
    StepKeeps(c, Hear(ip, mac, insert));
    HeardIsNew(c, ip, mac, insert);
    hide Step;
    hide Inv;
    if LeftAlone(c1, es, Match(c1.t, ip), ip) {
      KnownUntilOld(c1, es, Match(c1.t, ip));
    }
  }

  lemma HeardIsNew(c: Cache, ip: int, mac: int, insert: bool)
    requires Inv(c) && ip != 0 && (Match(c.t, ip) < |c.t| || Slot(c.t) < |c.t|)
    ensures var t' := Step(c, Hear(ip, mac, insert)).t;
            Match(t', ip) < |t'| && t'[Match(t', ip)] == Entry(ip, mac, Stable, 0)
  {
    var t' := Step(c, Hear(ip, mac, insert)).t;
    HearKeeps(c, ip, mac, insert);
    hide Slot;
    hide Recycled;
    MatchAt(t', ip, if Match(c.t, ip) < |c.t| then Match(c.t, ip) else Slot(c.t));
    hide Match;
  }

  /** Asking for an address that is in use changes nothing; otherwise it is pending afterwards, with the age of the
      entry that it took, unless every entry is pending: and then nothing changes either. */
  lemma AskIsPending(c: Cache, ip: int)
    requires Inv(c)
    ensures var t, t' := c.t, Step(c, Ask(ip)).t;
            if Match(t, ip) < |t| || forall i :: 0 <= i < |t| ==> t[i].state.Pending? then t' == t
            else Match(t', ip) == Slot(t) < |t| == |t'| && t'[Slot(t)].state.Pending?
                 && t'[Slot(t)].ctime == if t[Slot(t)].state.Stable? then 0 else t[Slot(t)].ctime
  {
    var t' := Step(c, Ask(ip)).t;
    SlotExists(c.t);
    AskKeeps(c, ip);
    if Match(c.t, ip) == |c.t| && Slot(c.t) < |c.t| {
      RecycledAt(c.t, Slot(c.t));
      hide Slot;
      hide Recycled;
      MatchAt(t', ip, Slot(c.t));
    }
  }
}
