/** The exception-return register frame of arch/aarch64/sched.rs: x0 to
    x30, then SP_EL0, ELR_EL1, SPSR_EL1 and TPIDR_EL0, indexed by the
    discriminant of the register's name. */
module ArchSched {
  import opened Bits

  const REG_NUM: nat := 35
  /** SPSR_EL1 for a return to EL0 using SP_EL0 (mode EL0t). */
  const SPSR_EL1_EL0T: u64 := 0

  datatype RegType = X(n: nat) | SpEl0 | ElrEl1 | SpsrEl1 | TpidrEl0

  predicate IsReg(r: RegType) {
    r.X? ==> r.n <= 30
  }

  /** The enum's discriminant. */
  function Slot(r: RegType): (i: nat)
    requires IsReg(r)
    ensures i < REG_NUM
    ensures r.X? <==> i <= 30
  {
    match r
    case X(n) => n
    case SpEl0 => 31
    case ElrEl1 => 32
    case SpsrEl1 => 33
    case TpidrEl0 => 34
  }

  /** Distinct registers have distinct slots, and every slot belongs to a
      register, so indexing by name reaches the whole frame. */
  lemma SlotsBijective(a: RegType, b: RegType, i: nat)
    requires IsReg(a) && IsReg(b)
    ensures Slot(a) == Slot(b) ==> a == b
    ensures i < REG_NUM ==> exists r :: IsReg(r) && Slot(r) == i
  {
    if i < REG_NUM {
      if i <= 30 {
        assert Slot(X(i)) == i;
      } else if i == 31 {
        assert Slot(SpEl0) == i;
      } else if i == 32 {
        assert Slot(ElrEl1) == i;
      } else if i == 33 {
        assert Slot(SpsrEl1) == i;
      } else {
        assert Slot(TpidrEl0) == i;
      }
    }
  }

  type Ctx = c: seq<u64> | |c| == REG_NUM witness seq(REG_NUM, _ => 0)

  /** `Index` by register name. */
  function Get(c: Ctx, r: RegType): u64
    requires IsReg(r)
  {
    c[Slot(r)]
  }

  /** `IndexMut` by register name. */
  function Put(c: Ctx, r: RegType, v: u64): (c': Ctx)
    requires IsReg(r)
    ensures Get(c', r) == v
    ensures forall q :: IsReg(q) && q != r ==> Get(c', q) == Get(c, q)
  {
    SlotsBijective(r, r, 0);
    forall q | IsReg(q) && q != r
      ensures Slot(q) != Slot(r)
    {
      SlotsBijective(q, r, 0);
    }
    c[Slot(r) := v]
  }

  /** `new`: every register zero. */
  function New(): (c: Ctx)
    ensures forall r :: IsReg(r) ==> Get(c, r) == 0
  {
    seq(REG_NUM, _ => 0)
  }

  /** `user_init(stack, pc)`: return to EL0t at `pc` on the user stack. */
  function UserInit(c: Ctx, stack: u64, pc: u64): (c': Ctx)
    ensures Get(c', SpEl0) == stack && Get(c', SpsrEl1) == SPSR_EL1_EL0T && Get(c', ElrEl1) == pc
    ensures forall r :: IsReg(r) && r != SpEl0 && r != SpsrEl1 && r != ElrEl1 ==> Get(c', r) == Get(c, r)
  {
    Put(Put(Put(c, SpEl0, stack), SpsrEl1, SPSR_EL1_EL0T), ElrEl1, pc)
  }

  /** In slot terms: slots 31, 32 and 33 change and no other. */
  lemma UserInitSlots(c: Ctx, stack: u64, pc: u64)
    ensures var c' := UserInit(c, stack, pc);
      c'[31] == stack && c'[32] == pc && c'[33] == 0 &&
      forall i :: 0 <= i < REG_NUM && i != 31 && i != 32 && i != 33 ==> c'[i] == c[i]
  {
    var c' := UserInit(c, stack, pc);
    assert c'[31] == Get(c', SpEl0) && c'[32] == Get(c', ElrEl1) && c'[33] == Get(c', SpsrEl1);
    forall i | 0 <= i < REG_NUM && i != 31 && i != 32 && i != 33
      ensures c'[i] == c[i]
    {
      SlotsBijective(SpEl0, SpEl0, i);
      var r :| IsReg(r) && Slot(r) == i;
      assert Get(c', r) == Get(c, r);
    }
  }
}
