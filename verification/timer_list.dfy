/** The list of timers as sys.c keeps it: linked nodes whose times and links are changed in place. */
module TimerList {
  import opened Timers

  class Node {
    var time: nat
    const job: Job
    var next: Node?

    constructor (time: nat, job: Job)
      ensures this.time == time && this.job == job && next == null
    {
      this.time, this.job, next := time, job, null;
    }
  }

  // ---------------------------------------------------------------------------------------------
  // The walk along the list

  /** One step of the walk of sys_timeout. */
  lemma InsertStep(q: seq<Timer>, msecs: nat, job: Job, i: nat, left: nat)
    requires i < |q| && q[i].time <= left && Insert(q, msecs, job) == q[..i] + Insert(q[i..], left, job)
    ensures Insert(q, msecs, job) == q[..i + 1] + Insert(q[i + 1..], left - q[i].time, job)
  {
    assert q[i..][1..] == q[i + 1..] && q[..i + 1] == q[..i] + [q[i]];
    assert Insert(q[i..], left, job) == [q[i]] + Insert(q[i + 1..], left - q[i].time, job);
    hide Insert;
  }

  /** The new timer goes in at place i. */
  function InsertedAt(q: seq<Timer>, i: nat, left: nat, job: Job): (r: seq<Timer>)
    requires i <= |q| && (i < |q| ==> q[i].time >= left)
    ensures |r| == |q| + 1 && r[i] == Timer(left, job)
    ensures forall k :: 0 <= k < i ==> r[k] == q[k]
    ensures i < |q| ==> r[i + 1] == q[i].(time := q[i].time - left)
    ensures forall k :: i + 1 < k <= |q| ==> r[k] == q[k - 1]
  {
    if i == |q| then q + [Timer(left, job)]
    else q[..i] + [Timer(left, job), q[i].(time := q[i].time - left)] + q[i + 1..]
  }

  lemma InsertEnds(q: seq<Timer>, msecs: nat, job: Job, i: nat, left: nat)
    requires i <= |q| && Insert(q, msecs, job) == q[..i] + Insert(q[i..], left, job)
    requires i < |q| ==> q[i].time > left
    ensures Insert(q, msecs, job) == InsertedAt(q, i, left, job)
  {
    if i < |q| {
      assert q[i..][1..] == q[i + 1..];
    }
  }

  lemma RemoveStep(q: seq<Timer>, job: Job, i: nat)
    requires i < |q| && q[i].job != job && Remove(q, job) == q[..i] + Remove(q[i..], job)
    ensures Remove(q, job) == q[..i + 1] + Remove(q[i + 1..], job)
  {
    hide Remove;
    assert q[i..][1..] == q[i + 1..] && q[..i + 1] == q[..i] + [q[i]];
    RemoveBehind(q[i..], job);
  }

  lemma RemoveBehind(q: seq<Timer>, job: Job)
    requires q != [] && q[0].job != job
    ensures Remove(q, job) == [q[0]] + Remove(q[1..], job)
  {
  }

  /** The timer at place i goes, its time to the next. */
  function RemovedAt(q: seq<Timer>, i: nat): (r: seq<Timer>)
    requires i < |q|
    ensures |r| == |q| - 1
    ensures forall k :: 0 <= k < i ==> r[k] == q[k]
    ensures i + 1 < |q| ==> r[i] == q[i + 1].(time := q[i + 1].time + q[i].time)
    ensures forall k :: i < k < |r| ==> r[k] == q[k + 1]
  {
    if i + 1 == |q| then q[..i] else q[..i] + [q[i + 1].(time := q[i + 1].time + q[i].time)] + q[i + 2..]
  }

  lemma RemoveEnds(q: seq<Timer>, job: Job, i: nat)
    requires i < |q| && q[i].job == job && Remove(q, job) == q[..i] + Remove(q[i..], job)
    ensures Remove(q, job) == RemovedAt(q, i)
  {
    assert Remove(q[i..], job) == Drop(q[i..]);
    hide Remove;
    if i + 1 < |q| {
      assert q[i..][2..] == q[i + 2..];
    }
  }

  /** A call of sys_timeout or sys_untimeout. */
  datatype Request = Request(cancel: bool, msecs: nat, job: Job, memory: bool)

  function AfterCalls(q: seq<Timer>, calls: seq<Request>): seq<Timer>
    decreases |calls|
  {
    if calls == [] then q
    else
      var c := calls[0];
      AfterCalls(if c.cancel then Remove(q, c.job) else if c.memory then Insert(q, c.msecs, c.job) else q, calls[1..])
  }

  /** One round of the wait loop: whether a message came, after how long, and else what the handler does. */
  datatype Round = Round(message: bool, waited: nat, calls: seq<Request>)

  /** Whether a message ends the wait; a timer without time left goes off at once. */
  predicate MessageEnds(q: seq<Timer>, round: Round)
    requires q != []
  {
    q[0].time > 0 && round.message
  }

  /** The list after the wait loop. */
  function LeftOver(q: seq<Timer>, rounds: seq<Round>): seq<Timer>
    decreases |rounds|
  {
    if q == [] || rounds == [] then q
    else if MessageEnds(q, rounds[0]) then Charge(q, rounds[0].waited)
    else LeftOver(AfterCalls(q[1..], rounds[0].calls), rounds[1..])
  }

  /** The jobs that go off in the wait loop. */
  function WentOff(q: seq<Timer>, rounds: seq<Round>): seq<Job>
    decreases |rounds|
  {
    if q == [] || rounds == [] || MessageEnds(q, rounds[0]) then []
    else [q[0].job] + WentOff(AfterCalls(q[1..], rounds[0].calls), rounds[1..])
  }

  lemma LoopStops(q: seq<Timer>, rounds: seq<Round>)
    requires q == [] || rounds == []
    ensures LeftOver(q, rounds) == q && WentOff(q, rounds) == []
  {
  }

  lemma LoopMessage(q: seq<Timer>, rounds: seq<Round>, i: nat)
    requires q != [] && i < |rounds| && MessageEnds(q, rounds[i])
    ensures LeftOver(q, rounds[i..]) == Charge(q, rounds[i].waited) && WentOff(q, rounds[i..]) == []
  {
  }

  lemma LoopExpires(q: seq<Timer>, rounds: seq<Round>, i: nat)
    requires q != [] && i < |rounds| && !MessageEnds(q, rounds[i])
    ensures LeftOver(q, rounds[i..]) == LeftOver(AfterCalls(q[1..], rounds[i].calls), rounds[i + 1..])
    ensures WentOff(q, rounds[i..]) == [q[0].job] + WentOff(AfterCalls(q[1..], rounds[i].calls), rounds[i + 1..])
  {
    assert rounds[i..][1..] == rounds[i + 1..];
    hide AfterCalls;
  }

  lemma AfterCall(q: seq<Timer>, calls: seq<Request>, i: nat)
    requires i < |calls|
    ensures AfterCalls(q, calls[i..]) == AfterCalls(
              if calls[i].cancel then Remove(q, calls[i].job)
              else if calls[i].memory then Insert(q, calls[i].msecs, calls[i].job) else q, calls[i + 1..])
  {
    assert calls[i..][1..] == calls[i + 1..];
    hide Insert;
    hide Remove;
  }

  lemma AllCalled(q: seq<Timer>, calls: seq<Request>)
    ensures AfterCalls(q, calls[0..]) == AfterCalls(q, calls) && AfterCalls(q, calls[|calls|..]) == q
  {
    assert calls[0..] == calls;
  }

  /** The nodes are the old ones, and perhaps one more. */
  /** The list of nodes with n put in behind place i. */
  ghost function Behind(s: seq<Node>, i: nat, n: Node): (r: seq<Node>)
    requires i < |s|
    ensures |r| == |s| + 1 && r[i + 1] == n
    ensures forall k :: 0 <= k <= i ==> r[k] == s[k]
    ensures forall k :: i + 1 < k <= |s| ==> r[k] == s[k - 1]
  {
    s[..i + 1] + [n] + s[i + 1..]
  }

  lemma FewNewHere(s: seq<Node>, r: seq<Node>, i: nat, n: Node)
    requires i < |s| && r == Behind(s, i, n)
    ensures FewNew(s, r, n)
  {
  }

  ghost predicate FewNew(s: seq<Node>, r: seq<Node>, n: Node) {
    forall k :: 0 <= k < |r| ==> r[k] in s || r[k] == n
  }

  // ---------------------------------------------------------------------------------------------

  class Timeouts {
    var first: Node?
    ghost var spine: seq<Node>

    /** The nodes of the list, in their order. */
    ghost predicate Valid()
      reads this, spine
    {
      && first == (if spine == [] then null else spine[0])
      && (forall i :: 0 <= i < |spine| ==> Linked(i))
      && (forall i, j :: 0 <= i < j < |spine| ==> spine[i] != spine[j])
    }

    /** The node at place i links to the next one. */
    ghost predicate Linked(i: int)
      requires 0 <= i < |spine|
      reads this, spine
    {
      spine[i].next == if i + 1 < |spine| then spine[i + 1] else null
    }

    ghost function Nodes(): set<Node>
      reads this
    {
      set n | n in spine
    }

    ghost function Value(): (q: seq<Timer>)
      reads this, spine
      ensures |q| == |spine|
      ensures forall i :: 0 <= i < |q| ==> q[i] == Timer(spine[i].time, spine[i].job)
    {
      seq(|spine|, i requires 0 <= i < |spine| reads this, spine => Timer(spine[i].time, spine[i].job))
    }

    constructor ()
      ensures Valid() && Value() == [] && spine == []
    {
      first, spine := null, [];
    }

    /** Puts a node in front of the list. */
    method LinkFront(timeout: Node)
      requires Valid() && timeout !in spine && timeout.next == null && first != null && first.time >= timeout.time
      modifies this, spine, timeout`next
      ensures Valid() && Value() == InsertedAt(old(Value()), 0, timeout.time, timeout.job)
      ensures FewNew(old(spine), spine, timeout)
    {
      hide InsertedAt;
      ghost var q := Value();
      first.time := first.time - timeout.time;
      timeout.next := first;
      first := timeout;
      spine := [timeout] + spine;
      forall k | 0 <= k < |spine| ensures Linked(k) {
        if k > 0 {
          assert old(Linked(k - 1));
        }
      }
      forall k | 0 <= k < |spine| ensures Value()[k] == InsertedAt(q, 0, timeout.time, timeout.job)[k] {
      }
    }

    /** Puts a node in behind the node t at place i. */
    method PutBehind(t: Node, timeout: Node, ghost i: nat)
      requires Valid() && timeout !in spine && i < |spine| && t == spine[i]
      requires i + 1 < |spine| ==> spine[i + 1].time >= timeout.time
      modifies this`spine, spine, timeout`next
      ensures Valid() && spine == Behind(old(spine), i, timeout)
      ensures forall k :: 0 <= k < |old(spine)| ==>
                old(spine)[k].time == old(spine[k].time) - if k == i + 1 then timeout.time else 0
    {
      hide Behind;
      ghost var s := spine;
      assert Linked(i);
      if t.next != null {
        t.next.time := t.next.time - timeout.time;
      }
      timeout.next := t.next;
      t.next := timeout;
      spine := Behind(s, i, timeout);
      forall k | 0 <= k < |spine| ensures Linked(k) {
        if k < i {
          assert old(Linked(k));
        } else if k > i + 1 {
          assert old(Linked(k - 1));
        }
      }
    }

    method LinkBehind(t: Node, timeout: Node, ghost i: nat)
      requires Valid() && timeout !in spine && i < |spine| && t == spine[i]
      requires i + 1 < |spine| ==> spine[i + 1].time >= timeout.time
      modifies this`spine, spine, timeout`next
      ensures Valid() && Value() == InsertedAt(old(Value()), i + 1, timeout.time, timeout.job)
      ensures FewNew(old(spine), spine, timeout)
    {
      hide InsertedAt;
      hide FewNew;
      hide Valid;
      hide Behind;
      ghost var q, s := Value(), spine;
      PutBehind(t, timeout, i);
      FewNewHere(s, spine, i, timeout);
      forall k | 0 <= k < |spine| ensures Value()[k] == InsertedAt(q, i + 1, timeout.time, timeout.job)[k] {
      }
    }

    lemma FirstNode()
      requires Valid()
      ensures first == if spine == [] then null else spine[0]
      ensures |Value()| == |spine|
    {
    }

    /** The node behind the one at place i. */
    lemma NextNode(i: nat)
      requires Valid() && i < |spine|
      ensures spine[i].next == null <==> i + 1 == |spine|
      ensures i + 1 < |spine| ==> spine[i].next == spine[i + 1] && Value()[i + 1].time == spine[i + 1].time
      ensures |Value()| == |spine| && Value()[i] == Timer(spine[i].time, spine[i].job)
    {
      assert Linked(i);
    }

    /** The walk of sys_timeout, for a timer not before the first of the list: it stops at the node t at place i,
        with the times on the way subtracted. */
    method Walk(timeout: Node) returns (t: Node, ghost i: nat)
      requires Valid() && first != null && first.time <= timeout.time && timeout !in spine
      modifies timeout`time
      ensures Valid() && Value() == old(Value()) && i < |spine| && t == spine[i]
      ensures i + 1 < |spine| ==> spine[i + 1].time > timeout.time
      ensures Insert(Value(), old(timeout.time), timeout.job) == InsertedAt(Value(), i + 1, timeout.time, timeout.job)
    {
      hide InsertedAt;
      hide Insert;
      hide Linked;
      hide Valid;
      hide Value;
      FirstNode();
      ghost var q, msecs := Value(), timeout.time;
      t, i := first, 0;
      assert q[..0] + Insert(q[0..], msecs, timeout.job) == Insert(q, msecs, timeout.job);
      while true
        invariant i < |spine| && t == spine[i]
        invariant Valid() && Value() == q && t.time <= timeout.time
        invariant Insert(q, msecs, timeout.job) == q[..i] + Insert(q[i..], timeout.time, timeout.job)
        decreases |spine| - i
      {
        NextNode(i);
        InsertStep(q, msecs, timeout.job, i, timeout.time);
        timeout.time := timeout.time - t.time;
        if t.next == null || t.next.time > timeout.time {
          InsertEnds(q, msecs, timeout.job, i + 1, timeout.time);
          return;
        }
        t := t.next;
        i := i + 1;
      }
    }

    method WalkIn(timeout: Node)
      requires Valid() && first != null && first.time <= timeout.time && timeout !in spine
      modifies this`spine, spine, timeout
      ensures Valid() && Value() == Insert(old(Value()), old(timeout.time), timeout.job)
      ensures FewNew(old(spine), spine, timeout)
    {
      hide InsertedAt;
      hide Insert;
      hide Linked;
      hide FewNew;
      hide Valid;
      hide Value;
      ghost var i;
      var t;
      t, i := Walk(timeout);
      LinkBehind(t, timeout, i);
    }

    /** sys_timeout.  memory says whether there is a node for the timer. */
    method Timeout(msecs: nat, job: Job, memory: bool)
      requires Valid()
      modifies this, spine
      ensures Valid() && Value() == if memory then Insert(old(Value()), msecs, job) else old(Value())
      ensures fresh(Nodes() - old(Nodes()))
    {
      hide InsertedAt;
      hide Insert;
      hide Linked;
      if !memory {
        return;
      }
      ghost var q := Value();
      var timeout := new Node(msecs, job);
      if first == null {
        InsertInEmpty(msecs, job);
        first := timeout;
        spine := [timeout];
        assert Linked(0) by { LinkedLast(0); }
        return;
      }
      if first.time > msecs {
        InsertEnds(q, msecs, job, 0, msecs);
        LinkFront(timeout);
      } else {
        WalkIn(timeout);
      }
    }

    /** Takes the node t at place i out of the list; prev is the node before it. */
    method Unlink(prev: Node?, t: Node, ghost i: nat)
      requires Valid() && i < |spine| && t == spine[i] && prev == if i == 0 then null else spine[i - 1]
      modifies this, spine
      ensures Valid() && Value() == RemovedAt(old(Value()), i)
      ensures Nodes() <= old(Nodes())
    {
      hide RemovedAt;
      ghost var q, s := Value(), spine;
      assert Linked(i);
      if prev == null {
        first := t.next;
      } else {
        prev.next := t.next;
      }
      if t.next != null {
        t.next.time := t.next.time + t.time;
      }
      spine := s[..i] + s[i + 1..];
      forall k | 0 <= k < |spine| ensures Linked(k) {
        if k < i {
          assert old(Linked(k)) && spine[k] == s[k];
        } else {
          assert old(Linked(k + 1)) && spine[k] == s[k + 1];
          assert k + 1 < |spine| ==> spine[k + 1] == s[k + 2];
        }
      }
      forall k | 0 <= k < |spine| ensures Value()[k] == RemovedAt(q, i)[k] {
      }
    }

    /** sys_untimeout. */
    method Untimeout(job: Job)
      requires Valid()
      modifies this, spine
      ensures Valid() && Value() == Remove(old(Value()), job)
      ensures Nodes() <= old(Nodes())
    {
      hide RemovedAt;
      hide Remove;
      hide Linked;
      hide Valid;
      hide Value;
      FirstNode();
      ghost var q := Value();
      var t, prev: Node? := first, null;
      ghost var i: nat := 0;
      assert q[..0] + Remove(q[0..], job) == Remove(q, job);
      while t != null
        invariant spine == old(spine) && Valid() && Value() == q
        invariant i <= |spine| && t == (if i < |spine| then spine[i] else null)
        invariant prev == if i == 0 then null else spine[i - 1]
        invariant Remove(q, job) == q[..i] + Remove(q[i..], job)
        decreases |spine| - i
      {
        NextNode(i);
        if t.job == job {
          RemoveEnds(q, job, i);
          Unlink(prev, t, i);
          return;
        }
        RemoveStep(q, job, i);
        prev, t := t, t.next;
        i := i + 1;
      }
      NothingRemoved(q, job);
    }

    /** What a handler does with the timers. */
    method Call(calls: seq<Request>)
      requires Valid()
      modifies this, spine
      ensures Valid() && Value() == AfterCalls(old(Value()), calls)
      ensures fresh(Nodes() - old(Nodes()))
    {
      hide Linked;
      hide Insert;
      hide Remove;
      hide AfterCalls;
      ghost var q := Value();
      var i := 0;
      AllCalled(q, calls);
      while i < |calls|
        invariant i <= |calls| && Valid() && AfterCalls(q, calls) == AfterCalls(Value(), calls[i..])
        invariant fresh(Nodes() - old(Nodes()))
      {
        AfterCall(Value(), calls, i);
        if calls[i].cancel {
          Untimeout(calls[i].job);
        } else {
          Timeout(calls[i].msecs, calls[i].job, calls[i].memory);
        }
        i := i + 1;
      }
      AllCalled(Value(), calls);
    }

    /** Unlinks the first timer, which goes off. */
    method Pop() returns (job: Job)
      requires Valid() && first != null
      modifies this
      ensures old(Value()) != [] && job == old(Value())[0].job && Value() == old(Value())[1..]
      ensures Valid() && spine == old(spine)[1..]
    {
      assert Linked(0);
      job := first.job;
      first := first.next;
      spine := spine[1..];
      forall k | 0 <= k < |spine| ensures Linked(k) {
        assert old(Linked(k + 1));
      }
    }

    /** Waiting for waited milliseconds counts for the first timer, as far as it goes. */
    method Spend(waited: nat)
      requires Valid() && first != null
      modifies first`time
      ensures Valid() && Value() == Charge(old(Value()), waited)
    {
      hide Linked;
      ghost var q := Value();
      NextNode(0);
      if waited <= first.time {
        first.time := first.time - waited;
      } else {
        first.time := 0;
      }
      forall k | 0 <= k < |spine| ensures Linked(k) {
        assert old(Linked(k));
        LinkedSame(k);
      }
    }

    /** The wait loop, sys_mbox_fetch and sys_sem_wait.  Each round says how the wait ended, if there was
        one, and what the handler does if a timer goes off.  The result is the jobs that went off. */
    method Fetch(rounds: seq<Round>) returns (fired: seq<Job>)
      requires Valid()
      modifies this, spine
      ensures Valid() && Value() == LeftOver(old(Value()), rounds) && fired == WentOff(old(Value()), rounds)
    {
      hide Linked;
      hide LeftOver;
      hide WentOff;
      hide AfterCalls;
      hide Charge;
      ghost var q := Value();
      fired := [];
      var i := 0;
      assert rounds[0..] == rounds;
      while i < |rounds|
        invariant i <= |rounds| && Valid() && LeftOver(q, rounds) == LeftOver(Value(), rounds[i..])
        invariant WentOff(q, rounds) == fired + WentOff(Value(), rounds[i..])
        invariant fresh(Nodes() - old(Nodes()))
      {
        ghost var v := Value();
        if first == null {
          LoopStops(v, rounds[i..]);
          return;
        }
        if first.time > 0 && rounds[i].message {
          LoopMessage(v, rounds, i);
          Spend(rounds[i].waited);
          return;
        }
        LoopExpires(v, rounds, i);
        var job := Pop();
        fired := fired + [job];
        Call(rounds[i].calls);
        i := i + 1;
      }
      LoopStops(Value(), rounds[i..]);
    }

    twostate lemma LinkedSame(k: nat)
      requires spine == old(spine) && k < |spine| && old(Linked(k)) && spine[k].next == old(spine[k].next)
      ensures Linked(k)
    {
    }

    lemma LinkedLast(i: nat)
      requires i + 1 == |spine| && spine[i].next == null
      ensures Linked(i)
    {
    }
  }

  lemma NothingRemoved(q: seq<Timer>, job: Job)
    ensures q[|q|..] == [] && Remove([], job) == [] && q[..|q|] == q
  {
  }

  lemma InsertInEmpty(msecs: nat, job: Job)
    ensures Insert([], msecs, job) == [Timer(msecs, job)]
  {
  }
}
