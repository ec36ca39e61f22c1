/** The callee-saved register block of thread/thread_ctx.rs: x19 to x28 in
    slots 0 to 9, the link register in slot 10 and the stack pointer in
    slot 11. */
module ThreadCtx {
  import opened Bits

  const REG_COUNT: nat := 12
  const LR_SLOT: nat := 10
  const SP_SLOT: nat := 11

  datatype ThreadType = Kernel | User

  type Regs = r: seq<u64> | |r| == REG_COUNT witness seq(REG_COUNT, _ => 0)

  /** `new`: every slot zero. */
  function New(): (c: Regs)
    ensures forall i :: 0 <= i < REG_COUNT ==> c[i] == 0
  {
    seq(REG_COUNT, _ => 0)
  }

  /** `set(stack, type, entry)`: the stack pointer, and a link register
      that returns into `entry` for a kernel thread or into `first_ret`,
      whose address is a parameter here, for a user thread. */
  function Set(c: Regs, stackAddr: u64, t: ThreadType, entry: u64, firstRet: u64): (r: Regs)
    ensures r[SP_SLOT] == stackAddr
    ensures r[LR_SLOT] == (if t == Kernel then entry else firstRet)
    ensures forall i :: 0 <= i < REG_COUNT && i != SP_SLOT && i != LR_SLOT ==> r[i] == c[i]
  {
    var c1 := c[SP_SLOT := stackAddr];
    match t
    case User => c1[LR_SLOT := firstRet]
    case Kernel => c1[LR_SLOT := entry]
  }

  /** `set` overwrites rather than accumulates: setting twice is setting
      once with the later values. */
  lemma SetTwice(c: Regs, s1: u64, t1: ThreadType, e1: u64, s2: u64, t2: ThreadType, e2: u64, firstRet: u64)
    ensures Set(Set(c, s1, t1, e1, firstRet), s2, t2, e2, firstRet) == Set(c, s2, t2, e2, firstRet)
  {}

  /** A fresh kernel thread's context holds only its stack and entry. */
  lemma FreshKernelContext(stackAddr: u64, entry: u64, firstRet: u64)
    ensures var r := Set(New(), stackAddr, Kernel, entry, firstRet);
      r == seq(REG_COUNT, i requires 0 <= i < REG_COUNT => if i == SP_SLOT then stackAddr else if i == LR_SLOT then entry else 0)
  {}
}
