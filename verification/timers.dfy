/**
 * The timers of sys.c: a list sorted by deadline in which every entry holds only the time after the one
 * before it.
 */
module Timers {
  const U32 := 0x1_0000_0000

  /** A handler and its argument. */
  datatype Job = Job(handler: int, arg: int)

  /** A timer as the list keeps it: time is counted from the timer before. */
  datatype Timer = Timer(time: nat, job: Job)

  /** sys_timeout. */
  function Insert(q: seq<Timer>, msecs: nat, job: Job): seq<Timer> {
    if q == [] then [Timer(msecs, job)]
    else if q[0].time > msecs then [Timer(msecs, job), q[0].(time := q[0].time - msecs)] + q[1..]
    else [q[0]] + Insert(q[1..], msecs - q[0].time, job)
  }

  /** sys_untimeout. */
  function Remove(q: seq<Timer>, job: Job): seq<Timer> {
    if q == [] then []
    else if q[0].job == job then Drop(q)
    else [q[0]] + Remove(q[1..], job)
  }

  /** The list without its first timer, the others where they were. */
  function Drop(q: seq<Timer>): seq<Timer>
    requires q != []
  {
    if |q| == 1 then [] else [q[1].(time := q[1].time + q[0].time)] + q[2..]
  }

  /** The wait loops: t milliseconds were spent waiting for something other than a timer. */
  function Charge(q: seq<Timer>, t: nat): seq<Timer> {
    if q == [] then []
    else [q[0].(time := if t <= q[0].time then q[0].time - t else 0)] + q[1..]
  }

  // ---------------------------------------------------------------------------------------------
  // Deadlines

  /** A timer with its deadline. */
  datatype Deadline = Deadline(due: nat, job: Job)

  /** The deadlines, for a list that counts from the time base. */
  function Deadlines(q: seq<Timer>, base: nat): (d: seq<Deadline>)
    ensures |d| == |q|
  {
    if q == [] then [] else [Deadline(base + q[0].time, q[0].job)] + Deadlines(q[1..], base + q[0].time)
  }

  ghost predicate Sorted(d: seq<Deadline>) {
    forall i, j :: 0 <= i < j < |d| ==> d[i].due <= d[j].due
  }

  /** The place behind all deadlines that are not later. */
  function Place(d: seq<Deadline>, due: nat): (i: nat)
    ensures i <= |d|
    ensures forall j :: 0 <= j < i ==> d[j].due <= due
    ensures i < |d| ==> d[i].due > due
  {
    if d == [] || d[0].due > due then 0 else 1 + Place(d[1..], due)
  }

  /** The first deadline of a job. */
  function First(d: seq<Deadline>, job: Job): (i: nat)
    ensures i <= |d|
    ensures forall j :: 0 <= j < i ==> d[j].job != job
    ensures i < |d| ==> d[i].job == job
  {
    if d == [] || d[0].job == job then 0 else 1 + First(d[1..], job)
  }

  lemma {:induction false} DeadlinesSorted(q: seq<Timer>, base: nat)
    ensures Sorted(Deadlines(q, base))
    ensures forall d <- Deadlines(q, base) :: base <= d.due
  {
    if q != [] {
      DeadlinesSorted(q[1..], base + q[0].time);
    }
  }

  lemma DeadlinesCons(t: Timer, r: seq<Timer>, base: nat)
    ensures Deadlines([t] + r, base) == [Deadline(base + t.time, t.job)] + Deadlines(r, base + t.time)
  {
    assert ([t] + r)[1..] == r;
  }

  /** d with e put in at place i. */
  function PutIn(d: seq<Deadline>, i: nat, e: Deadline): seq<Deadline>
    requires i <= |d|
  {
    d[..i] + [e] + d[i..]
  }

  lemma PutInLater(first: Deadline, d: seq<Deadline>, i: nat, e: Deadline)
    requires i <= |d|
    ensures PutIn([first] + d, i + 1, e) == [first] + PutIn(d, i, e)
  {
    assert ([first] + d)[..i + 1] == [first] + d[..i];
  }

  function TakeOut(d: seq<Deadline>, i: nat): seq<Deadline>
    requires i <= |d|
  {
    if i < |d| then d[..i] + d[i + 1..] else d
  }

  lemma TakeOutLater(first: Deadline, d: seq<Deadline>, i: nat)
    requires i <= |d|
    ensures TakeOut([first] + d, i + 1) == [first] + TakeOut(d, i)
  {
    if i < |d| {
      assert ([first] + d)[..i + 1] == [first] + d[..i];
    }
  }

  /** sys_timeout adds one deadline, behind those that are not later, and changes no other. */
  lemma {:induction false} InsertDeadline(q: seq<Timer>, msecs: nat, job: Job, base: nat)
    ensures var d := Deadlines(q, base);
            Deadlines(Insert(q, msecs, job), base) == PutIn(d, Place(d, base + msecs), Deadline(base + msecs, job))
  {
    var d, e := Deadlines(q, base), Deadline(base + msecs, job);
    if q == [] {
      DeadlinesCons(Timer(msecs, job), [], base);
    } else if q[0].time > msecs {
      InsertInFront(q, msecs, job, base);
    } else {
      hide PutIn;
      var rest := Deadlines(q[1..], base + q[0].time);
      InsertDeadline(q[1..], msecs - q[0].time, job, base + q[0].time);
      DeadlinesCons(q[0], Insert(q[1..], msecs - q[0].time, job), base);
      PutInLater(Deadline(base + q[0].time, q[0].job), rest, Place(rest, base + msecs), e);
      assert d[1..] == rest;
    }
  }

  lemma InsertInFront(q: seq<Timer>, msecs: nat, job: Job, base: nat)
    requires q != [] && q[0].time > msecs
    ensures var d := Deadlines(q, base);
            && Place(d, base + msecs) == 0
            && Deadlines(Insert(q, msecs, job), base) == PutIn(d, 0, Deadline(base + msecs, job))
  {
    var d, e := Deadlines(q, base), Deadline(base + msecs, job);
    var later := q[0].(time := q[0].time - msecs);
    DeadlinesCons(later, q[1..], base + msecs);
    DeadlinesCons(Timer(msecs, job), [later] + q[1..], base);
    PutInFront(d, e);
    assert Insert(q, msecs, job) == [Timer(msecs, job)] + ([later] + q[1..]);
  }

  lemma PutInFront(d: seq<Deadline>, e: Deadline)
    ensures PutIn(d, 0, e) == [e] + d
  {
  }

  /** sys_untimeout takes away the first deadline of the job, if any, and changes no other. */
  lemma {:induction false} RemoveDeadline(q: seq<Timer>, job: Job, base: nat)
    ensures var d := Deadlines(q, base); Deadlines(Remove(q, job), base) == TakeOut(d, First(d, job))
  {
    var d := Deadlines(q, base);
    if q != [] && q[0].job != job {
      hide TakeOut;
      var rest := Deadlines(q[1..], base + q[0].time);
      RemoveDeadline(q[1..], job, base + q[0].time);
      DeadlinesCons(q[0], Remove(q[1..], job), base);
      TakeOutLater(Deadline(base + q[0].time, q[0].job), rest, First(rest, job));
      assert d[1..] == rest;
    } else if q != [] {
      DropDeadline(q, base);
    }
  }

  lemma DropDeadline(q: seq<Timer>, base: nat)
    requires q != []
    ensures Deadlines(Drop(q), base) == Deadlines(q, base)[1..]
  {
    if |q| > 1 {
      assert Drop(q)[1..] == q[2..];
      assert q[1..][1..] == q[2..];
    }
  }

  /** Waiting moves the base and leaves every deadline; time beyond the first deadline is not counted. */
  lemma ChargeDeadlines(q: seq<Timer>, t: nat, base: nat)
    requires q != []
    ensures Deadlines(Charge(q, t), base + (if t <= q[0].time then t else q[0].time)) == Deadlines(q, base)
  {
    assert Charge(q, t)[1..] == q[1..];
  }
}
