/**
 * Whole runs of the timers: timers are set and cancelled, messages come, timers fire, handlers take time.
 * Beside the list of sys.c the state keeps what every timer was asked for.
 */
module TimerRuns {
  import opened Timers
  import TimerList

  /** A timer as it was asked for: at real time born, when the list had counted to start, for wait
      milliseconds, as the serial-th of all. */
  datatype Alarm = Alarm(job: Job, born: nat, start: nat, wait: nat, serial: nat) {
    function Due(): nat { start + wait }
  }

  /** A timer that went off: the job that was called, and the real time. */
  datatype Fired = Fired(alarm: Alarm, job: Job, at: nat)

  /** The list, the time it has counted, the real time; and what was asked for, is pending, has fired, and
      was cancelled. */
  datatype Clock = Clock(q: seq<Timer>, counted: nat, now: nat,
                         asked: seq<Alarm>, pending: seq<Alarm>, fired: seq<Fired>, cancelled: seq<Alarm>)

  const START := Clock([], 0, 0, [], [], [], [])

  /** sys_timeout, sys_untimeout; the two ways a wait ends, a message after t milliseconds or the first
      timer, perhaps late; and time spent outside of the waits. */
  datatype Event = Set(msecs: nat, job: Job) | Cancel(job: Job) | Message(t: nat) | Expire(late: nat) | Work(t: nat)

  /** The place behind all alarms that are not later. */
  function PlaceOf(a: seq<Alarm>, due: nat): (i: nat)
    ensures i <= |a|
    ensures forall j :: 0 <= j < i ==> a[j].Due() <= due
    ensures i < |a| ==> a[i].Due() > due
  {
    if a == [] || a[0].Due() > due then 0 else 1 + PlaceOf(a[1..], due)
  }

  function FirstOf(a: seq<Alarm>, job: Job): (i: nat)
    ensures i <= |a|
    ensures forall j :: 0 <= j < i ==> a[j].job != job
    ensures i < |a| ==> a[i].job == job
  {
    if a == [] || a[0].job == job then 0 else 1 + FirstOf(a[1..], job)
  }

  function PutAt(a: seq<Alarm>, i: nat, x: Alarm): (r: seq<Alarm>)
    requires i <= |a|
    ensures |r| == |a| + 1
    ensures r[i] == x
    ensures forall j :: 0 <= j < i ==> r[j] == a[j]
    ensures forall j :: i < j <= |a| ==> r[j] == a[j - 1]
    ensures multiset(r) == multiset(a) + multiset{x}
  {
    assert a == a[..i] + a[i..];
    a[..i] + [x] + a[i..]
  }

  function CutAt(a: seq<Alarm>, i: nat): (r: seq<Alarm>)
    requires i < |a|
    ensures |r| == |a| - 1
    ensures forall j :: 0 <= j < |r| ==> r[j] == a[if j < i then j else j + 1]
    ensures multiset(a) == multiset(r) + multiset{a[i]}
  {
    assert a == a[..i] + [a[i]] + a[i + 1..];
    a[..i] + a[i + 1..]
  }

  function SetStep(c: Clock, msecs: nat, job: Job): Clock {
    var x := Alarm(job, c.now, c.counted, msecs, |c.asked|);
    c.(q := Insert(c.q, msecs, job), asked := c.asked + [x],
        pending := PutAt(c.pending, PlaceOf(c.pending, x.Due()), x))
  }

  function CancelStep(c: Clock, job: Job): Clock {
    var i := FirstOf(c.pending, job);
    if i < |c.pending|
    then c.(q := Remove(c.q, job), pending := CutAt(c.pending, i), cancelled := c.cancelled + [c.pending[i]])
    else c.(q := Remove(c.q, job))
  }

  function MessageStep(c: Clock, t: nat): Clock {
    c.(q := Charge(c.q, t), now := c.now + t,
       counted := c.counted + if c.q == [] then 0 else if t <= c.q[0].time then t else c.q[0].time)
  }

  /** The first timer goes off: the wait took its time, or longer. */
  function ExpireStep(c: Clock, late: nat): Clock
    requires c.q != [] && c.pending != []
  {
    var at := c.now + c.q[0].time + late;
    c.(q := c.q[1..], counted := c.counted + c.q[0].time, now := at,
       pending := c.pending[1..], fired := c.fired + [Fired(c.pending[0], c.q[0].job, at)])
  }

  function Step(c: Clock, e: Event): Clock {
    match e
    case Set(msecs, job) => SetStep(c, msecs, job)
    case Cancel(job) => CancelStep(c, job)
    case Message(t) => MessageStep(c, t)
    case Expire(late) => if c.q != [] && c.pending != [] then ExpireStep(c, late) else c
    case Work(t) => c.(now := c.now + t)
  }

  function Run(c: Clock, es: seq<Event>): Clock
    decreases |es|
  {
    if es == [] then c else Run(Step(c, es[0]), es[1..])
  }

  // ---------------------------------------------------------------------------------------------
  // The invariant

  /** Earlier deadline, or the same and asked for earlier. */
  predicate Before(a: Alarm, b: Alarm) {
    a.Due() < b.Due() || (a.Due() == b.Due() && a.serial < b.serial)
  }

  /** The list holds the deadlines of the pending timers. */
  ghost predicate Agrees(c: Clock) {
    && |c.pending| == |c.q|
    && forall i :: 0 <= i < |c.q| ==>
         Deadlines(c.q, c.counted)[i] == Deadline(c.pending[i].Due(), c.pending[i].job)
  }

  /** A pending timer is not yet due, and real time is not behind the counted time. */
  predicate Waiting(c: Clock, a: Alarm) {
    a.start <= c.counted <= a.Due() && a.born + (c.counted - a.start) <= c.now && a.serial < |c.asked|
  }

  /** A timer that went off was due, and was not early. */
  predicate WasDue(c: Clock, f: Fired) {
    f.alarm.Due() <= c.counted && f.at >= f.alarm.born + f.alarm.wait && f.job == f.alarm.job
        && f.alarm.serial < |c.asked|
  }

  ghost predicate Ordered(a: seq<Alarm>) {
    forall i, j :: 0 <= i < j < |a| ==> Before(a[i], a[j])
  }

  ghost predicate FiredOrdered(f: seq<Fired>) {
    forall i, j :: 0 <= i < j < |f| ==> Before(f[i].alarm, f[j].alarm)
  }

  function Alarms(f: seq<Fired>): seq<Alarm> {
    seq(|f|, i requires 0 <= i < |f| => f[i].alarm)
  }

  /** Every timer asked for is pending, has fired, or was cancelled, once. */
  ghost predicate Conserved(c: Clock) {
    multiset(c.asked) == multiset(c.pending) + multiset(Alarms(c.fired)) + multiset(c.cancelled)
  }

  ghost predicate Inv(c: Clock) {
    && Agrees(c)
    && Ordered(c.pending) && FiredOrdered(c.fired)
    && (forall i :: 0 <= i < |c.pending| ==> Waiting(c, c.pending[i]))
    && (forall i :: 0 <= i < |c.fired| ==> WasDue(c, c.fired[i]))
    && (forall i, j :: 0 <= i < |c.fired| && 0 <= j < |c.pending| ==> Before(c.fired[i].alarm, c.pending[j]))
    && Conserved(c)
  }

  // ---------------------------------------------------------------------------------------------
  // The list agrees

  lemma {:induction false} PlacesAgree(d: seq<Deadline>, a: seq<Alarm>, due: nat)
    requires |a| == |d| && forall i :: 0 <= i < |d| ==> d[i] == Deadline(a[i].Due(), a[i].job)
    ensures Place(d, due) == PlaceOf(a, due)
  {
    if d != [] {
      PlacesAgree(d[1..], a[1..], due);
    }
  }

  lemma {:induction false} FirstsAgree(d: seq<Deadline>, a: seq<Alarm>, job: Job)
    requires |a| == |d| && forall i :: 0 <= i < |d| ==> d[i] == Deadline(a[i].Due(), a[i].job)
    ensures First(d, job) == FirstOf(a, job)
  {
    if d != [] {
      FirstsAgree(d[1..], a[1..], job);
    }
  }

  lemma PutInAt(d: seq<Deadline>, i: nat, e: Deadline)
    requires i <= |d|
    ensures |PutIn(d, i, e)| == |d| + 1 && PutIn(d, i, e)[i] == e
    ensures forall j :: 0 <= j < i ==> PutIn(d, i, e)[j] == d[j]
    ensures forall j :: i < j <= |d| ==> PutIn(d, i, e)[j] == d[j - 1]
  {
  }

  lemma SetAgrees(c: Clock, msecs: nat, job: Job)
    requires Agrees(c)
    ensures Agrees(SetStep(c, msecs, job))
  {
    hide PutAt;
    hide PlaceOf;
    hide PutIn;
    hide Deadlines;
    hide Insert;
    hide Place;
    var d := Deadlines(c.q, c.counted);
    InsertDeadline(c.q, msecs, job, c.counted);
    PlacesAgree(d, c.pending, c.counted + msecs);
    PutInAt(d, Place(d, c.counted + msecs), Deadline(c.counted + msecs, job));
    SameCount(Insert(c.q, msecs, job), c.counted);
  }

  lemma SameCount(q: seq<Timer>, base: nat)
    ensures |Deadlines(q, base)| == |q|
  {
  }

  lemma CancelAgrees(c: Clock, job: Job)
    requires Agrees(c)
    ensures Agrees(CancelStep(c, job))
  {
    hide Deadlines;
    hide Remove;
    hide First;
    var d := Deadlines(c.q, c.counted);
    RemoveDeadline(c.q, job, c.counted);
    FirstsAgree(d, c.pending, job);
    SameCount(Remove(c.q, job), c.counted);
  }

  lemma MessageAgrees(c: Clock, t: nat)
    requires Agrees(c)
    ensures Agrees(MessageStep(c, t))
  {
    if c.q != [] {
      ChargeDeadlines(c.q, t, c.counted);
    }
    hide Deadlines;
  }

  lemma ExpireAgrees(c: Clock, late: nat)
    requires Agrees(c) && c.q != []
    ensures Agrees(ExpireStep(c, late))
  {
    assert Deadlines(c.q, c.counted)[1..] == Deadlines(c.q[1..], c.counted + c.q[0].time);
    hide Deadlines;
  }

  // ---------------------------------------------------------------------------------------------
  // Every step keeps the invariant

  lemma AlarmsMore(f: seq<Fired>, x: Fired)
    ensures Alarms(f + [x]) == Alarms(f) + [x.alarm]
  {
  }

  lemma PutOrdered(a: seq<Alarm>, x: Alarm, k: nat)
    requires Ordered(a) && k <= |a|
    requires forall j :: 0 <= j < k ==> Before(a[j], x)
    requires forall j :: k <= j < |a| ==> Before(x, a[j])
    ensures Ordered(PutAt(a, k, x))
  {
    hide PutAt;
    hide Before;
    var r := PutAt(a, k, x);
    forall i, j | 0 <= i < j < |r| ensures Before(r[i], r[j]) {
      if i != k && j != k {
        assert Before(a[if i < k then i else i - 1], a[if j < k then j else j - 1]);
      }
    }
  }

  /** A new alarm comes after those that are not later, and before the others. */
  lemma PlaceOrders(a: seq<Alarm>, x: Alarm, j: nat)
    requires Ordered(a) && j < |a| && a[j].serial < x.serial
    ensures var k := PlaceOf(a, x.Due()); if j < k then Before(a[j], x) else Before(x, a[j])
  {
    var k := PlaceOf(a, x.Due());
    hide PlaceOf;
    if j > k {
      assert Before(a[k], a[j]);
    }
  }

  lemma StillWaiting(c: Clock, c': Clock, a: Alarm)
    requires c'.now == c.now && c'.counted == c.counted && |c'.asked| == |c.asked| + 1 && Waiting(c, a)
    ensures Waiting(c', a)
  {
  }

  /** A new timer waits, behind everything that has fired. */
  lemma NewAlarm(c: Clock, c': Clock, x: Alarm, f: Fired)
    requires c'.now == c.now && c'.counted == c.counted && |c'.asked| == |c.asked| + 1
    requires x.born == c.now && x.start == c.counted && x.serial == |c.asked|
    ensures Waiting(c', x)
    ensures WasDue(c, f) ==> WasDue(c', f) && Before(f.alarm, x)
  {
  }

  lemma SetWaiting(c: Clock, c': Clock, k: nat, x: Alarm)
    requires k <= |c.pending| && c'.pending == PutAt(c.pending, k, x) && Waiting(c', x)
    requires c'.now == c.now && c'.counted == c.counted && |c'.asked| == |c.asked| + 1
    requires forall i :: 0 <= i < |c.pending| ==> Waiting(c, c.pending[i])
    ensures forall i :: 0 <= i < |c'.pending| ==> Waiting(c', c'.pending[i])
  {
    hide PutAt;
    hide Waiting;
    forall i | 0 <= i < |c'.pending| && i != k ensures Waiting(c', c'.pending[i]) {
      StillWaiting(c, c', c.pending[if i < k then i else i - 1]);
    }
  }

  lemma SetFired(c: Clock, c': Clock, k: nat, x: Alarm)
    requires k <= |c.pending| && c'.pending == PutAt(c.pending, k, x) && c'.fired == c.fired
    requires c'.now == c.now && c'.counted == c.counted && |c'.asked| == |c.asked| + 1
    requires x.born == c.now && x.start == c.counted && x.serial == |c.asked|
    requires forall i :: 0 <= i < |c.fired| ==> WasDue(c, c.fired[i])
    requires forall i, j :: 0 <= i < |c.fired| && 0 <= j < |c.pending| ==> Before(c.fired[i].alarm, c.pending[j])
    ensures forall i :: 0 <= i < |c'.fired| ==> WasDue(c', c'.fired[i])
    ensures forall i, j :: 0 <= i < |c'.fired| && 0 <= j < |c'.pending| ==> Before(c'.fired[i].alarm, c'.pending[j])
  {
    hide PutAt;
    hide Before;
    hide WasDue;
    forall i | 0 <= i < |c.fired| ensures WasDue(c', c.fired[i]) && Before(c.fired[i].alarm, x) {
      NewAlarm(c, c', x, c.fired[i]);
    }
    forall i, j | 0 <= i < |c'.fired| && 0 <= j < |c'.pending| ensures Before(c'.fired[i].alarm, c'.pending[j]) {
      assert j != k ==> c'.pending[j] == c.pending[if j < k then j else j - 1];
    }
  }

  lemma SetKeeps(c: Clock, msecs: nat, job: Job)
    requires Inv(c)
    ensures Inv(SetStep(c, msecs, job))
  {
    hide Agrees;
    hide PutAt;
    hide PlaceOf;
    hide Insert;
    hide Alarms;
    hide WasDue;
    hide Waiting;
    hide Before;
    hide Ordered;
    hide FiredOrdered;
    var c' := SetStep(c, msecs, job);
    var x := Alarm(job, c.now, c.counted, msecs, |c.asked|);
    SetAgrees(c, msecs, job);
    var k := PlaceOf(c.pending, x.Due());
    forall j | 0 <= j < |c.pending| ensures if j < k then Before(c.pending[j], x) else Before(x, c.pending[j]) {
      SerialBelow(c, c.pending[j]);
      PlaceOrders(c.pending, x, j);
    }
    PutOrdered(c.pending, x, k);
    NewAlarm(c, c', x, Fired(x, job, 0));
    SetWaiting(c, c', k, x);
    SetFired(c, c', k, x);
    assert c'.asked == c.asked + [x];
  }

  lemma SerialBelow(c: Clock, a: Alarm)
    requires Waiting(c, a)
    ensures a.serial < |c.asked|
  {
  }

  lemma CutOrdered(a: seq<Alarm>, k: nat)
    requires Ordered(a) && k < |a|
    ensures Ordered(CutAt(a, k))
  {
    hide CutAt;
    hide Before;
  }

  lemma CancelKeeps(c: Clock, job: Job)
    requires Inv(c)
    ensures Inv(CancelStep(c, job))
  {
    hide Agrees;
    hide CutAt;
    hide Remove;
    hide Alarms;
    hide WasDue;
    hide Waiting;
    hide Before;
    hide FirstOf;
    hide Ordered;
    CancelAgrees(c, job);
    var c', i := CancelStep(c, job), FirstOf(c.pending, job);
    if i < |c.pending| {
      CutOrdered(c.pending, i);
    }
    forall k | 0 <= k < |c'.pending| ensures Waiting(c', c'.pending[k]) {
      SameWaiting(c, c', c'.pending[k]);
    }
    forall k | 0 <= k < |c.fired| ensures WasDue(c', c.fired[k]) {
      SameDue(c, c', c.fired[k]);
    }
  }

  lemma SameWaiting(c: Clock, c': Clock, a: Alarm)
    requires c'.now == c.now && c'.counted == c.counted && c'.asked == c.asked
    ensures Waiting(c', a) == Waiting(c, a)
  {
  }

  lemma SameDue(c: Clock, c': Clock, f: Fired)
    requires c'.counted == c.counted && c'.asked == c.asked
    ensures WasDue(c', f) == WasDue(c, f)
  {
  }

  /** The first pending timer is the first of the list, and is due when the list has counted its time. */
  lemma HeadAgrees(c: Clock)
    requires Agrees(c) && c.q != []
    ensures c.pending != [] && c.pending[0].Due() == c.counted + c.q[0].time && c.pending[0].job == c.q[0].job
  {
    assert Deadlines(c.q, c.counted)[0] == Deadline(c.counted + c.q[0].time, c.q[0].job);
  }

  /** Counting on, but not beyond the first deadline, while at least as much real time passes. */
  lemma CountOn(c: Clock, c': Clock, n: nat)
    requires Ordered(c.pending) && (forall i :: 0 <= i < |c.pending| ==> Waiting(c, c.pending[i]))
    requires c'.asked == c.asked && c'.counted == c.counted + n && c.now + n <= c'.now
    requires c.pending != [] ==> c'.counted <= c.pending[0].Due()
    ensures forall i :: 0 <= i < |c.pending| ==> Waiting(c', c.pending[i])
  {
    forall i | 0 <= i < |c.pending| ensures Waiting(c', c.pending[i]) {
      assert Waiting(c, c.pending[i]) && (i > 0 ==> Before(c.pending[0], c.pending[i]));
    }
  }

  lemma MessageKeeps(c: Clock, t: nat)
    requires Inv(c)
    ensures Inv(MessageStep(c, t))
  {
    hide Charge;
    MessageAgrees(c, t);
    if c.q != [] {
      HeadAgrees(c);
    }
    var c' := MessageStep(c, t);
    assert c.pending == [] || c.q != [];
    CountOn(c, c', c'.counted - c.counted);
    hide Agrees;
    hide Waiting;
    hide Before;
  }

  lemma ExpireKeeps(c: Clock, late: nat)
    requires Inv(c) && c.q != []
    ensures c.pending != [] && Inv(ExpireStep(c, late))
  {
    hide Agrees;
    hide Ordered;
    hide FiredOrdered;
    hide Alarms;
    HeadAgrees(c);
    ExpireAgrees(c, late);
    var c' := ExpireStep(c, late);
    CountOn(c, c', c.q[0].time);
    var x := Fired(c.pending[0], c.q[0].job, c'.now);
    assert WasDue(c', x) by { assert Waiting(c, c.pending[0]); }
    AlarmsMore(c.fired, x);
    FiredKeepsOrder(c, c', x);
    assert c.pending == [c.pending[0]] + c.pending[1..];
    hide Waiting;
    hide Before;
    hide Alarms;
  }

  lemma FiredKeepsOrder(c: Clock, c': Clock, x: Fired)
    requires Inv(c) && c.pending != [] && x.alarm == c.pending[0]
    requires c'.fired == c.fired + [x] && c'.pending == c.pending[1..]
    ensures FiredOrdered(c'.fired) && Ordered(c'.pending)
    ensures forall i, j :: 0 <= i < |c'.fired| && 0 <= j < |c'.pending| ==> Before(c'.fired[i].alarm, c'.pending[j])
  {
    hide Before;
    hide Agrees;
    hide Waiting;
    hide WasDue;
    hide Conserved;
  }

  /** Every step keeps the invariant. */
  lemma StepKeeps(c: Clock, e: Event)
    requires Inv(c)
    ensures Inv(Step(c, e))
  {
    match e
    case Set(msecs, job) => SetKeeps(c, msecs, job);
    case Cancel(job) => CancelKeeps(c, job);
    case Message(t) => MessageKeeps(c, t);
    case Expire(late) => if c.q != [] { ExpireKeeps(c, late); }
    case Work(t) =>
  }

  lemma {:induction false} RunKeeps(c: Clock, es: seq<Event>)
    requires Inv(c)
    ensures Inv(Run(c, es))
    decreases |es|
  {
    hide Inv;
    hide Step;
    if es != [] {
      StepKeeps(c, es[0]);
      RunKeeps(Step(c, es[0]), es[1..]);
    }
  }

  lemma StartInv()
    ensures Inv(START)
  {
  }

  // ---------------------------------------------------------------------------------------------
  // What it means

  /** In every run timers go off in the order of their deadlines in list time, those with the same deadline in
      the order they were set, with the job they were set for, and never before the requested time has passed. */
  lemma TimersFireInOrder(es: seq<Event>)
    ensures var f := Run(START, es).fired;
            && (forall i :: 0 <= i < |f| ==> f[i].job == f[i].alarm.job && f[i].at - f[i].alarm.born >= f[i].alarm.wait)
            && (forall i, j :: 0 <= i < j < |f| ==>
                  f[i].alarm.Due() < f[j].alarm.Due()
                  || (f[i].alarm.Due() == f[j].alarm.Due() && f[i].alarm.serial < f[j].alarm.serial))
  {
    StartInv();
    RunKeeps(START, es);
  }

  /** All time that passes while a timer is pending is counted. */
  predicate Punctual(c: Clock, e: Event) {
    match e
    case Message(t) => c.q == [] || t <= c.q[0].time
    case Expire(late) => late == 0 || |c.q| <= 1
    case Work(t) => t == 0 || c.q == []
    case _ => true
  }

  ghost predicate AllPunctual(c: Clock, es: seq<Event>)
    decreases |es|
  {
    es == [] || (Punctual(c, es[0]) && AllPunctual(Step(c, es[0]), es[1..]))
  }

  /** The uncounted time before an alarm was set. */
  function Drift(a: Alarm): int { a.born - a.start }

  /** No time is uncounted since a pending timer was set, and less of it was before a timer that went off earlier. */
  ghost predicate InStep(c: Clock) {
    && (forall i :: 0 <= i < |c.pending| ==> Drift(c.pending[i]) == c.now - c.counted)
    && (forall i :: 0 <= i < |c.fired| ==> Drift(c.fired[i].alarm) <= c.now - c.counted)
    && (forall i, j :: 0 <= i < j < |c.fired| ==> Drift(c.fired[i].alarm) <= Drift(c.fired[j].alarm))
  }

  lemma SetInStep(c: Clock, msecs: nat, job: Job)
    requires InStep(c)
    ensures InStep(SetStep(c, msecs, job))
  {
    hide PutAt;
    hide Insert;
    hide PlaceOf;
  }

  lemma CancelInStep(c: Clock, job: Job)
    requires InStep(c)
    ensures InStep(CancelStep(c, job))
  {
    hide CutAt;
    hide Remove;
    hide FirstOf;
  }

  lemma ExpireInStep(c: Clock, late: nat)
    requires InStep(c) && |c.pending| == |c.q| > 0 && (late == 0 || |c.q| == 1)
    ensures InStep(ExpireStep(c, late))
  {
    assert Drift(c.pending[0]) == c.now - c.counted;
  }

  lemma StepInStep(c: Clock, e: Event)
    requires Inv(c) && InStep(c) && Punctual(c, e)
    ensures InStep(Step(c, e))
  {
    SameNumber(c);
    hide Inv;
    match e
    case Set(msecs, job) => SetInStep(c, msecs, job);
    case Cancel(job) => CancelInStep(c, job);
    case Message(t) => hide Charge;
    case Expire(late) => if c.q != [] { ExpireInStep(c, late); }
    case Work(t) =>
  }

  lemma SameNumber(c: Clock)
    requires Inv(c)
    ensures |c.pending| == |c.q|
  {
  }

  lemma {:induction false} RunInStep(c: Clock, es: seq<Event>)
    requires Inv(c) && InStep(c) && AllPunctual(c, es)
    ensures InStep(Run(c, es))
    decreases |es|
  {
    hide Inv;
    hide InStep;
    hide Step;
    hide Punctual;
    if es != [] {
      StepKeeps(c, es[0]);
      StepInStep(c, es[0]);
      RunInStep(Step(c, es[0]), es[1..]);
    }
  }

  /** When all time is counted while timers are pending, they go off in the order of the real times they were
      set for, those for the same time in the order they were set. */
  lemma RealDeadlinesInOrder(es: seq<Event>)
    requires AllPunctual(START, es)
    ensures var f := Run(START, es).fired;
            forall i, j :: 0 <= i < j < |f| ==>
              var a, b := f[i].alarm, f[j].alarm;
              a.born + a.wait < b.born + b.wait || (a.born + a.wait == b.born + b.wait && a.serial < b.serial)
  {
    hide Run;
    StartInv();
    RunKeeps(START, es);
    assert InStep(START);
    RunInStep(START, es);
    var f := Run(START, es).fired;
    forall i, j | 0 <= i < j < |f| ensures Before(f[i].alarm, f[j].alarm) && Drift(f[i].alarm) <= Drift(f[j].alarm) {
    }
  }

  /** Otherwise the order may be another: a timer for 50 milliseconds that is set after 1000 uncounted ones goes off
      before one for 100 that was due long ago. */
  lemma UncountedTimeReorders(a: Job, b: Job)
    ensures var f := Run(START, [Set(100, a), Work(1000), Set(50, b), Expire(0), Expire(0)]).fired;
            && |f| == 2 && f[0].job == b && f[1].job == a
            && f[0].alarm.born + f[0].alarm.wait == 1050 && f[1].alarm.born + f[1].alarm.wait == 100
  {
    hide Run;
    hide Step;
    FiveSteps(a, b);
    RunFive(START, Set(100, a), Work(1000), Set(50, b), Expire(0), Expire(0));
  }

  lemma FiveSteps(a: Job, b: Job)
    ensures Step(Step(Step(Step(Step(START, Set(100, a)), Work(1000)), Set(50, b)), Expire(0)), Expire(0)).fired
         == [Fired(Alarm(b, 1000, 0, 50, 1), b, 1050), Fired(Alarm(a, 0, 0, 100, 0), a, 1100)]
  {
    SetFirst(a);
    SetSecond(a, b);
    hide SetStep;
    var x, y := Alarm(a, 0, 0, 100, 0), Alarm(b, 1000, 0, 50, 1);
    var c := Clock([Timer(50, b), Timer(50, a)], 0, 1000, [x, y], [y, x], [], []);
    BothExpire(c, x, y);
  }

  lemma SetFirst(a: Job)
    ensures var x := Alarm(a, 0, 0, 100, 0);
            SetStep(START, 100, a) == Clock([Timer(100, a)], 0, 0, [x], [x], [], [])
  {
  }

  lemma SetSecond(a: Job, b: Job)
    ensures var x, y := Alarm(a, 0, 0, 100, 0), Alarm(b, 1000, 0, 50, 1);
            SetStep(Clock([Timer(100, a)], 0, 1000, [x], [x], [], []), 50, b)
            == Clock([Timer(50, b), Timer(50, a)], 0, 1000, [x, y], [y, x], [], [])
  {
    var x, y := Alarm(a, 0, 0, 100, 0), Alarm(b, 1000, 0, 50, 1);
    assert PlaceOf([x], 50) == 0;
    assert PutAt([x], 0, y) == [y, x];
    assert Insert([Timer(100, a)], 50, b) == [Timer(50, b), Timer(50, a)];
    hide PutAt;
    hide Insert;
  }

  lemma BothExpire(c: Clock, x: Alarm, y: Alarm)
    requires c == Clock([Timer(50, y.job), Timer(50, x.job)], 0, 1000, [x, y], [y, x], [], [])
    ensures Step(Step(c, Expire(0)), Expire(0)).fired == [Fired(y, y.job, 1050), Fired(x, x.job, 1100)]
  {
    assert Step(c, Expire(0)) == Clock([Timer(50, x.job)], 50, 1050, [x, y], [x], [Fired(y, y.job, 1050)], []);
  }

  lemma RunFive(c: Clock, e1: Event, e2: Event, e3: Event, e4: Event, e5: Event)
    ensures Run(c, [e1, e2, e3, e4, e5]) == Step(Step(Step(Step(Step(c, e1), e2), e3), e4), e5)
  {
    hide Step;
    var c3 := Step(Step(Step(c, e1), e2), e3);
    assert [e5][1..] == [] && Run(Step(c3, e4), [e5]) == Step(Step(c3, e4), e5);
    assert [e4, e5][1..] == [e5] && Run(c3, [e4, e5]) == Step(Step(c3, e4), e5);
    assert [e3, e4, e5][1..] == [e4, e5];
    assert [e2, e3, e4, e5][1..] == [e3, e4, e5];
    assert [e1, e2, e3, e4, e5][1..] == [e2, e3, e4, e5];
    assert Run(Step(Step(c, e1), e2), [e3, e4, e5]) == Run(c3, [e4, e5]);
    assert Run(Step(c, e1), [e2, e3, e4, e5]) == Run(Step(Step(c, e1), e2), [e3, e4, e5]);
  }

  /** No timer is lost: each is still pending, with its own deadline in the list, or went off, or was
      cancelled. */
  lemma NoTimerIsLost(es: seq<Event>)
    ensures var c := Run(START, es);
            && multiset(c.asked) == multiset(c.pending) + multiset(Alarms(c.fired)) + multiset(c.cancelled)
            && |c.pending| == |c.q|
            && forall i :: 0 <= i < |c.q| ==>
                Deadlines(c.q, c.counted)[i] == Deadline(c.pending[i].Due(), c.pending[i].job)
  {
    StartInv();
    RunKeeps(START, es);
  }

  ghost predicate Short(a: seq<Alarm>) {
    forall i :: 0 <= i < |a| ==> a[i].wait < U32
  }

  lemma StepShort(c: Clock, e: Event)
    requires Short(c.pending) && (e.Set? ==> e.msecs < U32)
    ensures Short(Step(c, e).pending)
  {
    hide PutAt;
    hide CutAt;
  }

  lemma {:induction false} RunShort(c: Clock, es: seq<Event>)
    requires Short(c.pending) && forall i :: 0 <= i < |es| && es[i].Set? ==> es[i].msecs < U32
    ensures Short(Run(c, es).pending)
    decreases |es|
  {
    if es != [] {
      hide Step;
      hide Short;
      StepShort(c, es[0]);
      RunShort(Step(c, es[0]), es[1..]);
    }
  }

  lemma {:induction false} LaterDeadline(q: seq<Timer>, base: nat, i: nat)
    requires i < |q|
    ensures base + q[i].time <= Deadlines(q, base)[i].due
    ensures i > 0 ==> base + q[i - 1].time + q[i].time <= Deadlines(q, base)[i].due
  {
    if i > 0 {
      LaterDeadline(q[1..], base + q[0].time, i - 1);
    }
  }

  /** No time in the list, and no sum that sys_untimeout makes of two neighbours, leaves 32 bits. */
  lemma NoWrapAround(es: seq<Event>, i: nat)
    requires forall k :: 0 <= k < |es| && es[k].Set? ==> es[k].msecs < U32
    requires i < |Run(START, es).q|
    ensures Run(START, es).q[i].time < U32
    ensures i > 0 ==> Run(START, es).q[i - 1].time + Run(START, es).q[i].time < U32
  {
    var c := Run(START, es);
    StartInv();
    RunKeeps(START, es);
    RunShort(START, es);
    hide Run;
    LaterDeadline(c.q, c.counted, i);
    assert Waiting(c, c.pending[i]);
  }

  // ---------------------------------------------------------------------------------------------
  // The wait loop is such a run

  function CallEvents(calls: seq<TimerList.Request>): (es: seq<Event>)
    decreases |calls|
  {
    if calls == [] then []
    else
      var c := calls[0];
      (if c.cancel then [Cancel(c.job)] else if c.memory then [Set(c.msecs, c.job)] else []) + CallEvents(calls[1..])
  }

  /** What happens in the wait loop: each timer goes off after its time, or after the time its wait took,
      and then its handler makes its calls. */
  function LoopEvents(q: seq<Timer>, rounds: seq<TimerList.Round>): seq<Event>
    decreases |rounds|
  {
    if q == [] || rounds == [] then []
    else if TimerList.MessageEnds(q, rounds[0]) then [Message(rounds[0].waited)]
    else
      [Expire(if rounds[0].waited > q[0].time then rounds[0].waited - q[0].time else 0)]
      + CallEvents(rounds[0].calls)
      + LoopEvents(TimerList.AfterCalls(q[1..], rounds[0].calls), rounds[1..])
  }

  lemma {:induction false} RunConcat(c: Clock, a: seq<Event>, b: seq<Event>)
    ensures Run(c, a + b) == Run(Run(c, a), b)
    decreases |a|
  {
    if a == [] {
      assert a + b == b;
    } else {
      assert (a + b)[1..] == a[1..] + b;
      hide Step;
      RunConcat(Step(c, a[0]), a[1..], b);
    }
  }

  lemma RunOne(c: Clock, e: Event)
    ensures Run(c, [e]) == Step(c, e)
  {
    assert [e][1..] == [];
    hide Step;
  }

  lemma {:induction false} CallsAreRun(c: Clock, calls: seq<TimerList.Request>)
    requires Inv(c)
    ensures var c' := Run(c, CallEvents(calls));
            c'.q == TimerList.AfterCalls(c.q, calls) && c'.fired == c.fired && Inv(c')
    decreases |calls|
  {
    hide Inv;
    if calls != [] {
      var x := calls[0];
      var first := if x.cancel then [Cancel(x.job)] else if x.memory then [Set(x.msecs, x.job)] else [];
      if first != [] {
        RunOne(c, first[0]);
        StepKeeps(c, first[0]);
      }
      RunConcat(c, first, CallEvents(calls[1..]));
      CallsAreRun(Run(c, first), calls[1..]);
    }
  }

  function Jobs(f: seq<Fired>): (j: seq<Job>)
    ensures |j| == |f| && forall i :: 0 <= i < |f| ==> j[i] == f[i].job
  {
    seq(|f|, i requires 0 <= i < |f| => f[i].job)
  }

  /** The wait loop is a run of these events: it leaves the same list, and the same jobs go off. */
  lemma {:induction false} LoopIsRun(c: Clock, rounds: seq<TimerList.Round>)
    requires Inv(c)
    ensures var c' := Run(c, LoopEvents(c.q, rounds));
            c'.q == TimerList.LeftOver(c.q, rounds) && Jobs(c'.fired) == Jobs(c.fired) + TimerList.WentOff(c.q, rounds)
    decreases |rounds|
  {
    hide Inv;
    hide TimerList.AfterCalls;
    hide CallEvents;
    hide Run;
    hide Step;
    if c.q == [] || rounds == [] {
      RunNone(c);
    } else if TimerList.MessageEnds(c.q, rounds[0]) {
      RunOne(c, Message(rounds[0].waited));
      MessageIs(c, rounds[0].waited);
    } else {
      var e := Expire(if rounds[0].waited > c.q[0].time then rounds[0].waited - c.q[0].time else 0);
      var es := CallEvents(rounds[0].calls);
      var rest := LoopEvents(TimerList.AfterCalls(c.q[1..], rounds[0].calls), rounds[1..]);
      RunOne(c, e);
      StepKeeps(c, e);
      var c1 := Step(c, e);
      ExpireIs(c, e.late);
      CallsAreRun(c1, rounds[0].calls);
      RunConcat(c, [e] + es, rest);
      RunConcat(c, [e], es);
      LoopIsRun(Run(c1, es), rounds[1..]);
    }
  }

  lemma RunNone(c: Clock)
    ensures Run(c, []) == c
  {
  }

  lemma MessageIs(c: Clock, t: nat)
    ensures Step(c, Message(t)).q == Charge(c.q, t) && Step(c, Message(t)).fired == c.fired
  {
  }

  lemma ExpireIs(c: Clock, late: nat)
    requires Inv(c) && c.q != []
    ensures Step(c, Expire(late)).q == c.q[1..]
    ensures Jobs(Step(c, Expire(late)).fired) == Jobs(c.fired) + [c.q[0].job]
  {
    assert |c.pending| == |c.q|;
  }
}
