/**
 * The ARP cache of etharp.c: a table of entries that are updated, requested, aged and recycled; against the
 * plain record of what was last heard from every address.
 */
module Arp {
  const TABLE_SIZE := 64
  const MAXAGE := 120
  const MAXPENDING := 2

  /** New addresses are always put in, whatever the flags say. */
  const ALWAYS_INSERT := true

  datatype State = Empty | Pending | Stable

  datatype Entry = Entry(ip: int, mac: int, state: State, ctime: nat)

  /** The first entry in use for an address, or the number of entries. */
  function Match(t: seq<Entry>, ip: int): (i: nat)
    ensures i <= |t|
    ensures i < |t| ==> t[i].ip == ip && !t[i].state.Empty?
    ensures forall j :: 0 <= j < i ==> t[j].ip != ip || t[j].state.Empty?
  {
    if t == [] || (t[0].ip == ip && !t[0].state.Empty?) then 0 else 1 + Match(t[1..], ip)
  }

  function FirstEmpty(t: seq<Entry>): (i: nat)
    ensures i <= |t|
    ensures i < |t| ==> t[i].state.Empty?
    ensures forall j :: 0 <= j < i ==> !t[j].state.Empty?
  {
    if t == [] || t[0].state.Empty? then 0 else 1 + FirstEmpty(t[1..])
  }

  /** The last of the oldest stable entries, or the number of entries when none is stable. */
  function Oldest(t: seq<Entry>): (i: nat)
    ensures i <= |t|
    ensures i < |t| ==> t[i].state.Stable?
    ensures i < |t| ==> forall j :: 0 <= j < |t| && t[j].state.Stable? ==> t[j].ctime <= t[i].ctime
    ensures i < |t| ==> forall j :: i < j < |t| && t[j].state.Stable? ==> t[j].ctime < t[i].ctime
    ensures i == |t| ==> forall j :: 0 <= j < |t| ==> !t[j].state.Stable?
  {
    if t == [] then 0
    else
      var n, rest := |t| - 1, t[..|t| - 1];
      var k := Oldest(rest);
      if t[n].state.Stable? then (if k < n && t[n].ctime < t[k].ctime then k else n)
      else if k < n then k else |t|
  }

  /** find_arp_entry: where a new entry can go, or the number of entries. */
  function Slot(t: seq<Entry>): (i: nat)
    ensures i <= |t|
  {
    if FirstEmpty(t) < |t| then FirstEmpty(t) else Oldest(t)
  }

  /** The table after find_arp_entry: a recycled entry is empty. */
  function Recycled(t: seq<Entry>): (r: seq<Entry>)
    ensures |r| == |t|
  {
    var i := Slot(t);
    if i < |t| && t[i].state.Stable? then t[i := t[i].(state := Empty, ctime := 0)] else t
  }

  /** update_arp_entry. */
  function Update(t: seq<Entry>, ip: int, mac: int, insert: bool): (r: seq<Entry>)
    ensures |r| == |t|
  {
    if ip == 0 then t
    else if Match(t, ip) < |t| then t[Match(t, ip) := Entry(ip, mac, Stable, 0)]
    else if !(ALWAYS_INSERT || insert) || Slot(t) == |t| then t
    else Recycled(t)[Slot(t) := Entry(ip, mac, Stable, 0)]
  }

  /** The table part of etharp_query. */
  function Query(t: seq<Entry>, ip: int): (r: seq<Entry>)
    ensures |r| == |t|
  {
    if Match(t, ip) < |t| || Slot(t) == |t| then t
    else Recycled(t)[Slot(t) := Recycled(t)[Slot(t)].(state := Pending, ip := ip)]
  }

  /** etharp_tmr, for one entry; the age has eight bits. */
  function Aged(e: Entry): Entry {
    var c := (e.ctime + 1) % 0x100;
    if (e.state.Stable? && c >= MAXAGE) || (e.state.Pending? && c >= MAXPENDING)
    then e.(state := Empty, ctime := c)
    else e.(ctime := c)
  }

  function Tick(t: seq<Entry>): (r: seq<Entry>)
    ensures |r| == |t| && forall i :: 0 <= i < |t| ==> r[i] == Aged(t[i])
  {
    seq(|t|, i requires 0 <= i < |t| => Aged(t[i]))
  }

  /** The address a packet is sent to, if it is known. */
  datatype Answer = Known(mac: int) | Unknown

  function Lookup(t: seq<Entry>, ip: int): Answer {
    var i := Match(t, ip);
    if i < |t| && t[i].state.Stable? then Known(t[i].mac) else Unknown
  }

  // ---------------------------------------------------------------------------------------------
  // What was heard

  /** The hardware address last heard from an IP address, and when. */
  datatype Heard = Heard(mac: int, at: nat)

  /** The table, the record, and the number of timer ticks. */
  datatype Cache = Cache(t: seq<Entry>, heard: map<int, Heard>, now: nat)

  datatype Event = Hear(ip: int, mac: int, insert: bool) | Ask(ip: int) | Timer

  function Step(c: Cache, e: Event): Cache {
    match e
    case Hear(ip, mac, insert) =>
      Cache(Update(c.t, ip, mac, insert), if ip == 0 then c.heard else c.heard[ip := Heard(mac, c.now)], c.now)
    case Ask(ip) => c.(t := Query(c.t, ip))
    case Timer => Cache(Tick(c.t), c.heard, c.now + 1)
  }

  function Run(c: Cache, es: seq<Event>): Cache
    decreases |es|
  {
    if es == [] then c else Run(Step(c, es[0]), es[1..])
  }

  /** A stable entry holds what was last heard from its address, and its age is the time since. */
  predicate Right(e: Entry, heard: map<int, Heard>, now: nat) {
    && e.ctime < 0x100
    && (e.state.Stable? ==>
          && e.ip in heard && heard[e.ip].mac == e.mac && heard[e.ip].at + e.ctime == now && e.ctime < MAXAGE)
  }

  /** At most one entry in use for every address. */
  ghost predicate Unique(t: seq<Entry>) {
    forall i, j :: 0 <= i < j < |t| && t[i].ip == t[j].ip ==> t[i].state.Empty? || t[j].state.Empty?
  }

  ghost predicate Inv(c: Cache) {
    && Unique(c.t)
    && (forall i :: 0 <= i < |c.t| ==> Right(c.t[i], c.heard, c.now))
  }

  lemma RecycledAt(t: seq<Entry>, i: nat)
    requires i < |t|
    ensures i != Slot(t) ==> Recycled(t)[i] == t[i]
    ensures i == Slot(t) ==> Recycled(t)[i] == if t[i].state.Stable? then t[i].(state := Empty, ctime := 0) else t[i]
  {
  }

  /** Putting a new address in a slot keeps the entries unique. */
  lemma PutUnique(t: seq<Entry>, r: seq<Entry>, k: nat)
    requires Unique(t) && k < |t| == |r| && Match(t, r[k].ip) == |t|
    requires forall i :: 0 <= i < |t| && i != k ==> r[i] == t[i]
    ensures Unique(r)
  {
    hide Match;
  }

  lemma HearKeeps(c: Cache, ip: int, mac: int, insert: bool)
    requires Inv(c)
    ensures Inv(Step(c, Hear(ip, mac, insert)))
  {
    hide Match;
    hide Slot;
    hide Recycled;
    var c' := Step(c, Hear(ip, mac, insert));
    var k := if Match(c.t, ip) < |c.t| then Match(c.t, ip) else Slot(c.t);
    if ip != 0 {
      forall i | 0 <= i < |c.t| ensures i != k ==> c'.t[i] == c.t[i] {
        RecycledAt(c.t, i);
      }
      OthersRight(c, ip, mac, k);
      if Match(c.t, ip) == |c.t| && k < |c.t| {
        PutUnique(c.t, c'.t, k);
      }
    }
  }

  /** Hearing from an address leaves the entries of the others right. */
  lemma OthersRight(c: Cache, ip: int, mac: int, k: nat)
    requires Inv(c) && k == (if Match(c.t, ip) < |c.t| then Match(c.t, ip) else Slot(c.t))
    ensures forall i :: 0 <= i < |c.t| && i != k ==> Right(c.t[i], c.heard[ip := Heard(mac, c.now)], c.now)
  {
    hide Match;
    hide Slot;
    forall i | 0 <= i < |c.t| && i != k ensures Right(c.t[i], c.heard[ip := Heard(mac, c.now)], c.now) {
      assert Right(c.t[i], c.heard, c.now);
    }
  }

  lemma AskKeeps(c: Cache, ip: int)
    requires Inv(c)
    ensures Inv(Step(c, Ask(ip)))
  {
    hide Match;
    hide Slot;
    hide Recycled;
    var c' := Step(c, Ask(ip));
    var k := Slot(c.t);
    if Match(c.t, ip) == |c.t| && k < |c.t| {
      forall i | 0 <= i < |c.t| ensures i != k ==> c'.t[i] == c.t[i] {
        RecycledAt(c.t, i);
      }
      RecycledAt(c.t, k);
      PutUnique(c.t, c'.t, k);
      assert Right(c.t[k], c.heard, c.now);
    }
  }

  lemma TimerKeeps(c: Cache)
    requires Inv(c)
    ensures Inv(Step(c, Timer))
  {
    hide Tick;
    var c' := Step(c, Timer);
    forall i | 0 <= i < |c.t| ensures Right(c'.t[i], c'.heard, c'.now) {
      assert Right(c.t[i], c.heard, c.now);
    }
  }

  lemma StepKeeps(c: Cache, e: Event)
    requires Inv(c)
    ensures Inv(Step(c, e)) && |Step(c, e).t| == |c.t|
  {
    hide Inv;
    match e
    case Hear(ip, mac, insert) => HearKeeps(c, ip, mac, insert);
    case Ask(ip) => AskKeeps(c, ip);
    case Timer => TimerKeeps(c);
  }

  lemma {:induction false} RunKeeps(c: Cache, es: seq<Event>)
    requires Inv(c)
    ensures Inv(Run(c, es)) && |Run(c, es).t| == |c.t|
    decreases |es|
  {
    hide Inv;
    hide Step;
    if es != [] {
      StepKeeps(c, es[0]);
      RunKeeps(Step(c, es[0]), es[1..]);
    }
  }

  /** The table at the start: all entries empty. */
  function Cleared(t: seq<Entry>): (r: seq<Entry>)
    ensures |r| == |t| && forall i :: 0 <= i < |t| ==> r[i] == t[i].(state := Empty, ctime := 0)
  {
    seq(|t|, i requires 0 <= i < |t| => t[i].(state := Empty, ctime := 0))
  }

  /** In every run, a hardware address found in the cache is the one last heard from the IP address, and
      was heard less than MAXAGE ticks ago; and there is at most one entry for it. */
  lemma LookupIsLastHeard(t: seq<Entry>, es: seq<Event>, ip: int)
    ensures var c := Run(Cache(Cleared(t), map[], 0), es);
            && Unique(c.t)
            && (Lookup(c.t, ip).Known? ==>
                  ip in c.heard && c.heard[ip].mac == Lookup(c.t, ip).mac && c.heard[ip].at + MAXAGE > c.now)
  {
    var start := Cache(Cleared(t), map[], 0);
    RunKeeps(start, es);
    hide Run;
    hide Match;
    var c := Run(start, es);
    if Match(c.t, ip) < |c.t| {
      assert Right(c.t[Match(c.t, ip)], c.heard, c.now);
    }
  }

  /** After hearing from an address it is found, unless every entry is pending. */
  lemma HeardIsFound(c: Cache, ip: int, mac: int, insert: bool)
    requires Inv(c) && ip != 0
    ensures Lookup(Step(c, Hear(ip, mac, insert)).t, ip) == Known(mac)
         <==> Match(c.t, ip) < |c.t| || exists i :: 0 <= i < |c.t| && !c.t[i].state.Pending?
  {
    var t', k := Step(c, Hear(ip, mac, insert)).t, Slot(c.t);
    SlotExists(c.t);
    HearKeeps(c, ip, mac, insert);
    hide Slot;
    hide Recycled;
    if Match(c.t, ip) < |c.t| || k < |c.t| {
      var i := if Match(c.t, ip) < |c.t| then Match(c.t, ip) else k;
      MatchAt(t', ip, i);
    }
  }

  lemma SlotExists(t: seq<Entry>)
    ensures Slot(t) < |t| <==> exists i :: 0 <= i < |t| && !t[i].state.Pending?
  {
    if Slot(t) < |t| {
      assert !t[Slot(t)].state.Pending?;
    }
  }

  lemma MatchAt(t: seq<Entry>, ip: int, i: nat)
    requires Unique(t) && i < |t| && t[i].ip == ip && !t[i].state.Empty?
    ensures Match(t, ip) == i
  {
    hide Match;
  }

  /** A pending entry is never taken for a new address; and when a stable one is, there was no empty entry
      and no stable address that was heard longer ago. */
  lemma EvictsOldest(c: Cache, ip: int, i: nat)
    requires Inv(c) && i < |c.t| && i == Slot(c.t)
    ensures !c.t[i].state.Pending?
    ensures c.t[i].state.Stable? ==>
              (forall j :: 0 <= j < |c.t| ==> !c.t[j].state.Empty?)
              && forall j :: 0 <= j < |c.t| && c.t[j].state.Stable? ==>
                   c.t[i].ip in c.heard && c.t[j].ip in c.heard && c.heard[c.t[i].ip].at <= c.heard[c.t[j].ip].at
  {
    hide FirstEmpty;
    hide Oldest;
    forall j | 0 <= j < |c.t| && c.t[i].state.Stable? && c.t[j].state.Stable?
      ensures c.t[i].ip in c.heard && c.t[j].ip in c.heard && c.heard[c.t[i].ip].at <= c.heard[c.t[j].ip].at
    {
      assert Right(c.t[i], c.heard, c.now) && Right(c.t[j], c.heard, c.now);
    }
  }

  // ---------------------------------------------------------------------------------------------
  // What does not hold

  /** n ticks of the timer. */
  function Ticks(t: seq<Entry>, n: nat): (r: seq<Entry>)
    ensures |r| == |t|
  {
    if n == 0 then t else Tick(Ticks(t, n - 1))
  }

  /** How many ticks end a request, by the age of the entry that it takes: the timer ages empty entries too,
      and etharp_query does not reset the age. */
  function Lasts(ctime: nat): nat {
    if ctime == 0 then MAXPENDING else if ctime == 0xff then MAXPENDING + 1 else 1
  }

  lemma {:induction false} PendingAges(t: seq<Entry>, k: nat, n: nat)
    requires k < |t| && t[k].state.Pending? && t[k].ctime < 0x100
    ensures Ticks(t, n)[k].state.Pending? <==> n < Lasts(t[k].ctime)
    ensures n < Lasts(t[k].ctime) ==> Ticks(t, n)[k].ctime == (t[k].ctime + n) % 0x100
    ensures n >= Lasts(t[k].ctime) ==> Ticks(t, n)[k].state.Empty?
  {
    if n > 0 {
      PendingAges(t, k, n - 1);
    }
  }

  /** A request for an address is pending for that many ticks, whatever the table was. */
  lemma PendingLasts(t: seq<Entry>, ip: int, n: nat)
    requires Match(t, ip) == |t| && Slot(t) < |t| && t[Slot(t)].ctime < 0x100
    ensures Ticks(Query(t, ip), n)[Slot(t)].state.Pending? <==> n < Lasts(Recycled(t)[Slot(t)].ctime)
  {
    hide Match;
    hide Slot;
    hide Ticks;
    RecycledAt(t, Slot(t));
    hide Recycled;
    PendingAges(Query(t, ip), Slot(t), n);
  }

  /** So it ends at the tick that MAXPENDING says if and only if the entry had age 0: as a recycled entry has. */
  lemma PendingSurvivesTick(t: seq<Entry>, ip: int)
    requires Match(t, ip) == |t| && Slot(t) < |t| && t[Slot(t)].ctime < 0x100
    ensures (forall n: nat :: Ticks(Query(t, ip), n)[Slot(t)].state.Pending? <==> n < MAXPENDING)
            <==> Recycled(t)[Slot(t)].ctime == 0
    ensures t[Slot(t)].state.Stable? ==> Recycled(t)[Slot(t)].ctime == 0
  {
    hide Match;
    hide Slot;
    hide Ticks;
    RecycledAt(t, Slot(t));
    hide Recycled;
    hide Query;
    forall n: nat
      ensures Ticks(Query(t, ip), n)[Slot(t)].state.Pending? <==> n < Lasts(Recycled(t)[Slot(t)].ctime)
    {
      PendingLasts(t, ip, n);
    }
    var c := Recycled(t)[Slot(t)].ctime;
    assert c != 0 && c != 0xff ==> !Ticks(Query(t, ip), 1)[Slot(t)].state.Pending?;
    assert c == 0xff ==> Ticks(Query(t, ip), MAXPENDING)[Slot(t)].state.Pending?;
  }

  /** Two ticks after the start a new request is dropped by the next tick, long before MAXPENDING. */
  lemma PendingDroppedEarly(t: seq<Entry>, ip: int)
    requires t != []
    ensures var r := Query(Tick(Tick(Cleared(t))), ip);
            r[0] == t[0].(ip := ip, state := Pending, ctime := 2) && Tick(r)[0].state.Empty?
  {
    var s := Tick(Tick(Cleared(t)));
    forall i | 0 <= i < |t| ensures s[i].state.Empty? && s[i] == t[i].(state := Empty, ctime := 2) {
    }
    assert FirstEmpty(s) == 0;
    assert Match(s, ip) == |s| by { NoMatch(s, ip); }
  }

  lemma {:induction false} EmptyAges(t: seq<Entry>, n: nat)
    requires forall i :: 0 <= i < |t| ==> t[i].state.Empty? && t[i].ctime == 0
    ensures forall i :: 0 <= i < |t| ==> Ticks(t, n)[i].state.Empty? && Ticks(t, n)[i].ctime == n % 0x100
  {
    if n > 0 {
      EmptyAges(t, n - 1);
    }
  }

  /** 255 ticks after the start a new request is still pending at the tick that should end it. */
  lemma PendingOutlives(t: seq<Entry>, ip: int)
    requires t != []
    ensures var s := Query(Ticks(Cleared(t), 255), ip);
            Ticks(s, MAXPENDING)[0].state.Pending? && Ticks(s, MAXPENDING + 1)[0].state.Empty?
  {
    var s := Ticks(Cleared(t), 255);
    EmptyAges(Cleared(t), 255);
    hide Ticks;
    assert FirstEmpty(s) == 0;
    NoMatch(s, ip);
    PendingAges(Query(s, ip), 0, MAXPENDING);
    PendingAges(Query(s, ip), 0, MAXPENDING + 1);
  }

  lemma NoMatch(t: seq<Entry>, ip: int)
    requires forall i :: 0 <= i < |t| ==> t[i].state.Empty?
    ensures Match(t, ip) == |t|
  {
    hide Match;
  }

  // ---------------------------------------------------------------------------------------------

  /** The static table. */
  class ArpTable {
    const table: array<Entry>

    predicate Valid()
    {
      table.Length == TABLE_SIZE
    }

    /** etharp_init. */
    method Init()
      requires Valid()
      modifies table
      ensures table[..] == Cleared(old(table[..]))
    {
      var i := 0;
      while i < TABLE_SIZE
        invariant 0 <= i <= TABLE_SIZE
        invariant forall j :: 0 <= j < TABLE_SIZE ==>
                    table[j] == if j < i then old(table[j]).(state := Empty, ctime := 0) else old(table[j])
      {
        table[i] := table[i].(state := Empty, ctime := 0);
        i := i + 1;
      }
    }

    /** etharp_tmr. */
    method Timer()
      requires Valid()
      modifies table
      ensures table[..] == Tick(old(table[..]))
    {
      var i := 0;
      while i < TABLE_SIZE
        invariant 0 <= i <= TABLE_SIZE
        invariant forall j :: 0 <= j < TABLE_SIZE ==> table[j] == if j < i then Aged(old(table[j])) else old(table[j])
      {
        table[i] := table[i].(ctime := (table[i].ctime + 1) % 0x100);
        if table[i].state.Stable? && table[i].ctime >= MAXAGE {
          table[i] := table[i].(state := Empty);
        } else if table[i].state.Pending? && table[i].ctime >= MAXPENDING {
          table[i] := table[i].(state := Empty);
        }
        i := i + 1;
      }
    }

    /** find_arp_entry: the result is TABLE_SIZE where the source says ERR_MEM. */
    method FindEntry() returns (i: nat)
      requires Valid()
      modifies table
      ensures i == Slot(old(table[..])) && table[..] == Recycled(old(table[..]))
    {
      ghost var t := table[..];
      i := 0;
      var j: nat, maxtime := TABLE_SIZE, 0;
      while i < TABLE_SIZE
        invariant i <= TABLE_SIZE && table[..] == t
        invariant forall k :: 0 <= k < i ==> !t[k].state.Empty?
        invariant j == TABLE_SIZE || j < i
        invariant j == TABLE_SIZE ==> maxtime == 0 && forall k :: 0 <= k < i ==> !t[k].state.Stable?
        invariant j < i ==> t[j].state.Stable? && maxtime == t[j].ctime
        invariant j < i ==> forall k :: 0 <= k < i && t[k].state.Stable? ==>
                  t[k].ctime <= maxtime && (k > j ==> t[k].ctime < maxtime)
      {
        if table[i].state.Empty? {
          EmptyAt(t, i);
          return;
        } else if table[i].state.Stable? {
          if table[i].ctime >= maxtime {
            j := i;
            maxtime := table[i].ctime;
          }
        }
        i := i + 1;
      }
      OldestAt(t, j);
      i := j;
      if i == TABLE_SIZE {
        return;
      }
      if table[i].state.Stable? {
        table[i] := table[i].(state := Empty, ctime := 0);
      }
    }

    /** update_arp_entry. */
    method UpdateEntry(ip: int, mac: int, insert: bool)
      requires Valid()
      modifies table
      ensures table[..] == Update(old(table[..]), ip, mac, insert)
    {
      ghost var t := table[..];
      if ip == 0 {
        return;
      }
      var i := 0;
      while i < TABLE_SIZE
        invariant 0 <= i <= TABLE_SIZE && table[..] == t
        invariant forall k :: 0 <= k < i ==> t[k].ip != ip || t[k].state.Empty?
      {
        if table[i].ip == ip {
          if table[i].state.Pending? {
            table[i] := table[i].(state := Stable);
          }
          if table[i].state.Stable? {
            table[i] := table[i].(mac := mac);
            table[i] := table[i].(ctime := 0);
            assert Match(t, ip) == i;
            return;
          }
        }
        i := i + 1;
      }
      assert Match(t, ip) == |t|;
      if ALWAYS_INSERT || insert {
        var k := FindEntry();
        if k == TABLE_SIZE {
          return;
        }
        table[k] := table[k].(ip := ip);
        table[k] := table[k].(mac := mac);
        table[k] := table[k].(ctime := 0);
        table[k] := table[k].(state := Stable);
      }
    }

    /** The table part of etharp_query.  The result is false when no entry can be had. */
    method QueryEntry(ip: int) returns (ok: bool)
      requires Valid()
      modifies table
      ensures table[..] == Query(old(table[..]), ip)
      ensures ok <==> Match(table[..], ip) < TABLE_SIZE
    {
      ghost var t := table[..];
      var i := 0;
      while i < TABLE_SIZE
        invariant 0 <= i <= TABLE_SIZE && table[..] == t
        invariant forall k :: 0 <= k < i ==> t[k].ip != ip || t[k].state.Empty?
      {
        if table[i].ip == ip && (table[i].state.Pending? || table[i].state.Stable?) {
          return true;
        }
        i := i + 1;
      }
      assert Match(t, ip) == |t|;
      var k := FindEntry();
      if k == TABLE_SIZE {
        NothingRecycled(t);
        return false;
      }
      table[k] := table[k].(state := Pending);
      table[k] := table[k].(ip := ip);
      ok := true;
    }

    /** The search in etharp_output. */
    method Resolve(ip: int) returns (a: Answer)
      requires Valid() && Unique(table[..])
      ensures a == Lookup(table[..], ip)
    {
      var i := 0;
      while i < TABLE_SIZE
        invariant 0 <= i <= TABLE_SIZE
        invariant forall k :: 0 <= k < i ==> table[k].ip != ip || !table[k].state.Stable?
      {
        if table[i].state.Stable? && table[i].ip == ip {
          MatchAt(table[..], ip, i);
          return Known(table[i].mac);
        }
        i := i + 1;
      }
      return Unknown;
    }
  }

  lemma EmptyAt(t: seq<Entry>, i: nat)
    requires i < |t| && t[i].state.Empty? && forall k :: 0 <= k < i ==> !t[k].state.Empty?
    ensures Slot(t) == i && Recycled(t) == t
  {
    hide FirstEmpty;
  }

  lemma OldestAt(t: seq<Entry>, j: nat)
    requires j <= |t| && forall k :: 0 <= k < |t| ==> !t[k].state.Empty?
    requires j == |t| ==> forall k :: 0 <= k < |t| ==> !t[k].state.Stable?
    requires j < |t| ==> t[j].state.Stable? && forall k :: 0 <= k < |t| && t[k].state.Stable? ==>
                           t[k].ctime <= t[j].ctime && (k > j ==> t[k].ctime < t[j].ctime)
    ensures Slot(t) == j
  {
    hide FirstEmpty;
    hide Oldest;
  }

  lemma NothingRecycled(t: seq<Entry>)
    requires Slot(t) == |t|
    ensures Recycled(t) == t
  {
  }
}
