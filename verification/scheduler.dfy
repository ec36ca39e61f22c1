/** The index-based round-robin scheduler of scheduler.rs: a queue of
    threads and the position of the current one, which stays in the queue.
    Switching the translation table is not modelled. */
module Scheduler {
  import opened Wrappers
  import opened AddrType
  import opened Frame
  import opened KernelStack
  import opened Thread

  datatype SchedFail = SchedFail

  datatype SimpleScheduler = SimpleScheduler(queue: seq<Thread>, cur: Option<nat>)

  /** The current position, if any, is a position of the queue. */
  predicate CurInQueue(s: SimpleScheduler) {
    s.cur.Some? ==> s.cur.value < |s.queue|
  }

  /** Every queued thread's `sp` is defined.  `sched` reads the stack
      pointer of the thread it picks only, but which thread that is depends
      on the states, so this is kept as an invariant of the whole queue:
      threads enter it with a built kernel stack, and no round changes a
      stack. */
  predicate StacksReady(q: seq<Thread>) {
    forall i :: 0 <= i < |q| ==>
      WellFormed(q[i].kernelStack.data) && q[i].kernelStack.data.start.raw + q[i].kernelStack.pos < WINDOW
  }

  /** `new`: no thread, none current. */
  function New(): (s: SimpleScheduler)
    ensures s.queue == [] && s.cur.None? && CurInQueue(s)
  {
    SimpleScheduler([], None)
  }

  /** `push_thread`: append at the back. */
  function PushThread(s: SimpleScheduler, t: Thread): (r: SimpleScheduler)
    requires CurInQueue(s)
    ensures CurInQueue(r) && r.cur == s.cur
    ensures |r.queue| == |s.queue| + 1 && r.queue[..|s.queue|] == s.queue && r.queue[|s.queue|] == t
  {
    SimpleScheduler(s.queue + [t], s.cur)
  }

  /** `cur_thread`: the thread at the current position, if any. */
  function CurThread(s: SimpleScheduler): (r: Option<Thread>)
    requires CurInQueue(s)
    ensures r.None? <==> s.cur.None?
    ensures r.Some? ==> r.value == s.queue[s.cur.value]
  {
    match s.cur
    case None => None
    case Some(pos) => Some(s.queue[pos])
  }

  /** The first position at or after `i`, other than `skip`, whose thread
      is ready. */
  function FirstReady(q: seq<Thread>, i: nat, skip: Option<nat>): (r: Option<nat>)
    requires i <= |q|
    ensures r.Some? ==> i <= r.value < |q| && Some(r.value) != skip && q[r.value].state == TsReady
    ensures r.Some? ==> forall j :: i <= j < r.value && Some(j) != skip ==> q[j].state != TsReady
    ensures r.None? <==> forall j :: i <= j < |q| && Some(j) != skip ==> q[j].state != TsReady
    decreases |q| - i
  {
    if i == |q| then None
    else if Some(i) != skip && q[i].state == TsReady then Some(i)
    else FirstReady(q, i + 1, skip)
  }

  /** Make the thread at `pos` current and report its kernel stack. */
  function Select(q: seq<Thread>, pos: nat): (r: (Result<Addr, SchedFail>, SimpleScheduler))
    requires pos < |q| && StacksReady(q)
  {
    (Ok(Sp(q[pos].kernelStack)), SimpleScheduler(q, Some(pos)))
  }

  /** `sched`.  With a current thread: it must be running, else the call
      fails and changes nothing; it is set back to ready, and the first
      ready thread at another position becomes current.  With none: the
      first ready thread becomes current.  The selected thread's state is
      left as it is.  When no thread qualifies the call fails, keeping the
      demotion. */
  function Sched(s: SimpleScheduler): (r: (Result<Addr, SchedFail>, SimpleScheduler))
    requires CurInQueue(s) && StacksReady(s.queue)
    ensures CurInQueue(r.1) && StacksReady(r.1.queue) && |r.1.queue| == |s.queue|
    ensures r.0.Ok? ==> r.1.cur.Some? && r.1.queue[r.1.cur.value].state == TsReady
    ensures r.0.Ok? ==> r.0.value == Sp(r.1.queue[r.1.cur.value].kernelStack)
    ensures r.0.Ok? ==> r.1.cur != s.cur
    ensures r.0.Err? ==> r.1.cur == s.cur
  {
    match s.cur
    case Some(c) =>
      if GetState(s.queue[c]) != TsRunning then (Err(SchedFail), s)
      else
        var q := s.queue[c := SetState(s.queue[c], TsReady)];
        (match FirstReady(q, 0, Some(c))
         case Some(pos) => Select(q, pos)
         case None => (Err(SchedFail), SimpleScheduler(q, s.cur)))
    case None =>
      match FirstReady(s.queue, 0, None)
      case Some(pos) => Select(s.queue, pos)
      case None => (Err(SchedFail), s)
  }

  /** What `sched` does to the states: only the demoted thread changes, and
      only from running to ready. */
  lemma SchedStates(s: SimpleScheduler)
    requires CurInQueue(s) && StacksReady(s.queue)
    ensures var r := Sched(s);
      forall i :: 0 <= i < |s.queue| && Some(i) != s.cur ==> r.1.queue[i] == s.queue[i]
    ensures var r := Sched(s);
      s.cur.Some? && s.queue[s.cur.value].state == TsRunning ==>
        r.1.queue[s.cur.value] == SetState(s.queue[s.cur.value], TsReady)
    ensures s.cur.Some? && s.queue[s.cur.value].state != TsRunning ==> Sched(s) == (Err(SchedFail), s)
  {}

  /** `sched` picks the first qualifying thread: every ready thread before
      it is the one just demoted. */
  lemma SchedPicksFirst(s: SimpleScheduler)
    requires CurInQueue(s) && StacksReady(s.queue)
    ensures var r := Sched(s);
      r.0.Ok? ==> forall j :: 0 <= j < r.1.cur.value && Some(j) != s.cur ==> r.1.queue[j].state != TsReady
    ensures var r := Sched(s);
      r.0.Err? && (s.cur.None? || s.queue[s.cur.value].state == TsRunning) ==>
        forall j :: 0 <= j < |s.queue| && Some(j) != s.cur ==> s.queue[j].state != TsReady
  {}

  /** One round with two threads, as written: the running thread is
      demoted and the other, ready one becomes current, but it stays marked
      ready, so afterwards neither thread is running. */
  lemma TwoThreadsAlternate(a: Thread, b: Thread)
    requires a.state == TsRunning && b.state == TsReady
    requires StacksReady([a, b])
    ensures var r := Sched(SimpleScheduler([a, b], Some(0)));
      r.0.Ok? && r.1.cur == Some(1) && r.1.queue == [SetState(a, TsReady), b]
  {
    var q := [a, b][0 := SetState(a, TsReady)];
    assert q == [SetState(a, TsReady), b];
    assert FirstReady(q, 0, Some(0)) == FirstReady(q, 1, Some(0)) == Some(1);
  }

  /** Exactly the current thread, if any, is marked running. */
  predicate OneRunning(s: SimpleScheduler) {
    forall i :: 0 <= i < |s.queue| ==> (s.queue[i].state == TsRunning <==> s.cur == Some(i))
  }

  /** As written, `sched` never marks the thread it selects as running: from
      a state where only the current thread runs, a successful round leaves
      no thread running, and the next round fails without changing
      anything. */
  lemma SchedAgainFails(s: SimpleScheduler)
    requires CurInQueue(s) && StacksReady(s.queue)
    ensures var r := Sched(s);
      r.0.Ok? ==> Sched(r.1) == (Err(SchedFail), r.1)
    ensures var r := Sched(s);
      r.0.Ok? && OneRunning(s) ==> forall i :: 0 <= i < |r.1.queue| ==> r.1.queue[i].state != TsRunning
  {
    var r := Sched(s);
    if r.0.Ok? {
      SchedStates(r.1);
      if OneRunning(s) {
        SchedStates(s);
        forall i | 0 <= i < |r.1.queue|
          ensures r.1.queue[i].state != TsRunning
        {
          if Some(i) != s.cur {
            assert r.1.queue[i] == s.queue[i];
          }
        }
      }
    }
  }

  /** `sched` as evidently intended: as written, and the selected thread is
      marked running, so that the next round can demote it. */
  function SchedRunning(s: SimpleScheduler): (r: (Result<Addr, SchedFail>, SimpleScheduler))
    requires CurInQueue(s) && StacksReady(s.queue)
    ensures CurInQueue(r.1) && StacksReady(r.1.queue) && |r.1.queue| == |s.queue|
    ensures r.0 == Sched(s).0 && r.1.cur == Sched(s).1.cur
    ensures r.0.Ok? ==> r.1.queue[r.1.cur.value].state == TsRunning
    ensures r.0.Ok? && OneRunning(s) ==> OneRunning(r.1)
  {
    var (res, s1) := Sched(s);
    if res.Ok? then
      var c := s1.cur.value;
      var s2 := s1.(queue := s1.queue[c := SetState(s1.queue[c], TsRunning)]);
      assert StacksReady(s2.queue) by {
        assert forall i :: 0 <= i < |s2.queue| ==> s2.queue[i].kernelStack == s1.queue[i].kernelStack;
      }
      assert OneRunning(s) ==> OneRunning(s2) by {
        if OneRunning(s) {
          SchedStates(s);
          forall i | 0 <= i < |s2.queue|
            ensures s2.queue[i].state == TsRunning <==> s2.cur == Some(i)
          {
            if i != c && Some(i) != s.cur {
              assert s2.queue[i] == s.queue[i];
            }
          }
        }
      }
      (res, s2)
    else
      (res, s1)
  }

  /** With the selected thread marked running, two threads really take
      turns: each round swaps the running and the ready thread, and two
      rounds restore the starting state. */
  lemma TwoThreadsTakeTurns(a: Thread, b: Thread)
    requires a.state == TsRunning && b.state == TsReady
    requires StacksReady([a, b])
    ensures var s0 := SimpleScheduler([a, b], Some(0));
      var r1 := SchedRunning(s0);
      && r1.0.Ok? && r1.1 == SimpleScheduler([SetState(a, TsReady), SetState(b, TsRunning)], Some(1))
      && SchedRunning(r1.1).0.Ok? && SchedRunning(r1.1).1 == s0
  {
    var s0 := SimpleScheduler([a, b], Some(0));
    TwoThreadsAlternate(a, b);
    var s1 := SimpleScheduler([SetState(a, TsReady), SetState(b, TsRunning)], Some(1));
    assert [SetState(a, TsReady), b][1 := SetState(b, TsRunning)] == s1.queue;
    var q := s1.queue[1 := SetState(s1.queue[1], TsReady)];
    assert q == [SetState(a, TsReady), b];
    assert FirstReady(q, 0, Some(1)) == Some(0);
    assert q[0 := SetState(q[0], TsRunning)] == [a, b];
  }
}
