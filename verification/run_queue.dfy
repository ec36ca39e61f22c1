/** The queue-based scheduler of thread/scheduler.rs and the CPU record of
    thread/cpu.rs: runnable threads wait in a queue, and the one picked to
    run leaves the queue for the CPU until it yields.  A thread is its
    state and an identity standing for everything else it carries. */
module RunQueue {
  import opened Wrappers

  /** `ThreadState` of thread/mod.rs. */
  datatype ThreadState = Ready | Running | Waiting | Exiting | Uninit

  datatype Thread = Thread(state: ThreadState, id: nat)

  datatype SimpleScheduler = SimpleScheduler(queue: seq<Thread>)

  datatype Cpu = Cpu(curThread: Option<Thread>)

  /** The identities of a sequence of threads, in order. */
  function IdSeq(q: seq<Thread>): (r: seq<nat>)
    ensures |r| == |q| && forall i :: 0 <= i < |q| ==> r[i] == q[i].id
  {
    seq(|q|, i requires 0 <= i < |q| => q[i].id)
  }

  /** The identities of a sequence of threads. */
  function Ids(q: seq<Thread>): multiset<nat> {
    multiset(IdSeq(q))
  }

  lemma IdsAppend(a: seq<Thread>, b: seq<Thread>)
    ensures Ids(a + b) == Ids(a) + Ids(b)
  {
    assert IdSeq(a + b) == IdSeq(a) + IdSeq(b);
  }

  /** `push_thread`: append at the back. */
  function PushThread(s: SimpleScheduler, t: Thread): (r: SimpleScheduler)
    ensures |r.queue| == |s.queue| + 1 && r.queue[..|s.queue|] == s.queue && r.queue[|s.queue|] == t
    ensures Ids(r.queue) == Ids(s.queue) + multiset{t.id}
  {
    IdsAppend(s.queue, [t]);
    assert IdSeq([t]) == [t.id];
    SimpleScheduler(s.queue + [t])
  }

  /** The position of the first ready thread, if any. */
  function FirstReady(q: seq<Thread>, i: nat): (r: Option<nat>)
    requires i <= |q|
    ensures r.Some? ==> i <= r.value < |q| && q[r.value].state == Ready
    ensures r.Some? ==> forall j :: i <= j < r.value ==> q[j].state != Ready
    ensures r.None? <==> forall j :: i <= j < |q| ==> q[j].state != Ready
    decreases |q| - i
  {
    if i == |q| then None
    else if q[i].state == Ready then Some(i)
    else FirstReady(q, i + 1)
  }

  /** `sched_next`: take the first ready thread out of the queue, marked
      running; the others keep their states and order.  Nothing ready:
      nothing taken and the queue is unchanged. */
  function SchedNext(s: SimpleScheduler): (r: (Option<Thread>, SimpleScheduler))
    ensures r.0.None? <==> forall j :: 0 <= j < |s.queue| ==> s.queue[j].state != Ready
    ensures r.0.None? ==> r.1 == s
    ensures r.0.Some? ==> exists pos :: Picked(s.queue, pos, r.0.value, r.1.queue)
  {
    match FirstReady(s.queue, 0)
    case None => (None, s)
    case Some(pos) =>
      var t := s.queue[pos].(state := Running);
      var rest := s.queue[..pos] + s.queue[pos + 1..];
      assert Picked(s.queue, pos, t, rest);
      (Some(t), SimpleScheduler(rest))
  }

  /** `t` is the thread at `pos`, the first ready one, now running, and
      `rest` is the queue without it. */
  predicate Picked(q: seq<Thread>, pos: nat, t: Thread, rest: seq<Thread>) {
    && pos < |q| && q[pos].state == Ready
    && (forall j :: 0 <= j < pos ==> q[j].state != Ready)
    && t == q[pos].(state := Running)
    && rest == q[..pos] + q[pos + 1..]
  }

  /** Taking a thread out keeps every identity: the picked one plus the
      rest are the queue before. */
  lemma SchedNextKeepsIds(s: SimpleScheduler)
    ensures var r := SchedNext(s);
      r.0.Some? ==> Ids(r.1.queue) + multiset{r.0.value.id} == Ids(s.queue) && |r.1.queue| + 1 == |s.queue|
  {
    if SchedNext(s).0.Some? {
      IdsRemove(s.queue, FirstReady(s.queue, 0).value);
    }
  }

  /** Removing one position keeps every other identity. */
  lemma IdsRemove(q: seq<Thread>, pos: nat)
    requires pos < |q|
    ensures Ids(q[..pos] + q[pos + 1..]) + multiset{q[pos].id} == Ids(q)
  {
    var ids := IdSeq(q);
    assert IdSeq(q[..pos] + q[pos + 1..]) == ids[..pos] + ids[pos + 1..];
    assert ids == ids[..pos] + [ids[pos]] + ids[pos + 1..];
  }

  /** `CPU::new`: no current thread. */
  function NewCpu(): (c: Cpu)
    ensures c.curThread.None?
  {
    Cpu(None)
  }

  /** `reset`: there must be a current thread; it is taken off the CPU,
      marked ready and returned. */
  function Reset(c: Cpu): (r: (Thread, Cpu))
    requires c.curThread.Some?
    ensures r.0 == c.curThread.value.(state := Ready)
    ensures r.1.curThread.None?
  {
    (c.curThread.value.(state := Ready), Cpu(None))
  }

  /** `cur_thread`: the current thread, which must exist. */
  function CurThread(c: Cpu): (t: Thread)
    requires c.curThread.Some?
    ensures Some(t) == c.curThread
  {
    c.curThread.value
  }

  /** One round of `sched`'s loop: the next thread, which must exist,
      becomes the CPU's current thread, replacing whatever was there.  It is
      `sched_next`'s pick, the first ready thread now running, and the
      queue left is the rest in their order. */
  function Sched(s: SimpleScheduler, c: Cpu): (r: (SimpleScheduler, Cpu))
    requires exists j :: 0 <= j < |s.queue| && s.queue[j].state == Ready
    ensures r.1.curThread.Some? && r.1.curThread.value.state == Running
    ensures Ids(r.0.queue) + multiset{r.1.curThread.value.id} == Ids(s.queue)
    ensures exists pos :: Picked(s.queue, pos, r.1.curThread.value, r.0.queue)
    ensures SchedNext(s) == (r.1.curThread, r.0)
  {
    SchedNextKeepsIds(s);
    var (t, s') := SchedNext(s);
    (s', Cpu(Some(t.value)))
  }

  /** `_yield`: the current thread goes back to the end of the queue,
      ready, and the CPU is left without one. */
  function Yield(s: SimpleScheduler, c: Cpu): (r: (SimpleScheduler, Cpu))
    requires c.curThread.Some?
    ensures r.1.curThread.None?
    ensures r.0 == PushThread(s, c.curThread.value.(state := Ready))
    ensures Ids(r.0.queue) == Ids(s.queue) + multiset{c.curThread.value.id}
  {
    var (t, c') := Reset(c);
    (PushThread(s, t), c')
  }

  /** A thread that yields while no other thread is ready is the one the
      scheduler runs next, and it runs again. */
  lemma YieldThenSchedResumes(s: SimpleScheduler, c: Cpu)
    requires c.curThread.Some?
    requires forall j :: 0 <= j < |s.queue| ==> s.queue[j].state != Ready
    ensures var (s1, c1) := Yield(s, c);
      var (s2, c2) := Sched(s1, c1);
      c2.curThread == Some(c.curThread.value.(state := Running)) && s2 == s
  {
    var (s1, c1) := Yield(s, c);
    var n := |s.queue|;
    assert s1.queue[n].state == Ready;
    assert FirstReady(s1.queue, 0) == Some(n);
    assert s1.queue[..n] + s1.queue[n + 1..] == s.queue;
  }

  /** Threads are neither lost nor duplicated: a yield followed by a
      scheduling round keeps the identities of the queue and the CPU. */
  lemma YieldSchedKeepsIds(s: SimpleScheduler, c: Cpu)
    requires c.curThread.Some?
    ensures var (s1, c1) := Yield(s, c);
      var (s2, c2) := Sched(s1, c1);
      Ids(s2.queue) + multiset{c2.curThread.value.id} == Ids(s.queue) + multiset{c.curThread.value.id}
  {
    var (s1, c1) := Yield(s, c);
    assert s1.queue[|s.queue|].state == Ready;
  }
}
