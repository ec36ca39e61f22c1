/** The thread record of thread.rs and the state enum it shares with
    scheduler.rs.  Of a thread's fields only the state and the kernel stack
    are modelled; its address space is not. */
module Thread {
  import opened KernelStack

  /** `ThreadState` of scheduler.rs, discriminants 0 to 3. */
  datatype ThreadState = TsReady | TsRunning | TsWaiting | TsExiting

  datatype Thread = Thread(state: ThreadState, kernelStack: KernelStack)

  /** `get_state`. */
  function GetState(t: Thread): (s: ThreadState)
    ensures s == t.state
  {
    t.state
  }

  /** `set_state`: the new state, and nothing else changed. */
  function SetState(t: Thread, s: ThreadState): (t': Thread)
    ensures GetState(t') == s && t'.kernelStack == t.kernelStack
  {
    t.(state := s)
  }

  /** Reading after writing returns what was written; writing what was
      read changes nothing; of two writes the last one wins. */
  lemma SetGetLaws(t: Thread, a: ThreadState, b: ThreadState)
    ensures GetState(SetState(t, a)) == a
    ensures SetState(t, GetState(t)) == t
    ensures SetState(SetState(t, a), b) == SetState(t, b)
  {}
}
