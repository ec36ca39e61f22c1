/** The kernel stack of thread/kernel_stack.rs (thread.rs carries an
    identical copy): a data frame and the offset of the stack's top inside
    it.  The stack grows down from the frame's end. */
module KernelStack {
  import opened Bits
  import opened AddrType
  import opened Frame

  datatype KernelStack = KernelStack(pos: u64, data: DataFrame)

  /** The offset never leaves the frame; this is what keeps the `unwrap`
      in `push_on` from failing. */
  predicate Inv(k: KernelStack) {
    WellFormed(k.data) && k.pos <= Bytes(k.data.size)
  }

  /** `new`: an empty stack, its top at the frame's end. */
  function New(data: DataFrame): (k: KernelStack)
    requires WellFormed(data)
    ensures Inv(k) && k.data == data
    ensures k.pos == Bytes(data.size) && IsEmpty(k)
  {
    KernelStack(Bytes(data.size), data)
  }

  /** Nothing has been pushed. */
  predicate IsEmpty(k: KernelStack) {
    k.pos == Bytes(k.data.size)
  }

  /** `sp`: the kernel address of the frame's start plus the offset.  The
      kernel address's `+` is a checked add. */
  function Sp(k: KernelStack): (r: Addr)
    requires WellFormed(k.data) && k.data.start.raw + k.pos < WINDOW
    ensures r.space == Kernel
    ensures r.raw == KernelStart(k.data) + k.pos
    ensures KernelToPhys(r).raw == k.data.start.raw + k.pos
  {
    Pow2Constants();
    AddrType.Add(PhysToKernel(k.data.start), k.pos)
  }

  /** What `push_on::<T>` needs: the subtraction `pos - size_of::<T>()`
      must not underflow, and the kernel address `as_type_mut` forms for
      the new top, a plain u64 sum, must not overflow. */
  predicate CanPush(k: KernelStack, typeSize: nat) {
    Inv(k) && typeSize <= k.pos && k.data.start.raw + k.pos - typeSize < WINDOW
  }

  /** `push_on::<T>`: write a `typeSize`-byte value just below the top and
      lower the top by that size.  Returns the new stack and the kernel
      address written. */
  function PushOn(k: KernelStack, typeSize: nat): (res: (KernelStack, nat))
    requires CanPush(k, typeSize)
    ensures Inv(res.0) && res.0.data == k.data
    ensures res.0.pos == k.pos - typeSize
    ensures res.1 == KernelStart(k.data) + res.0.pos
    ensures res.1 + typeSize <= KernelStart(k.data) + Bytes(k.data.size)
  {
    Pow2Constants();
    var slot := AsType(k.data, typeSize, k.pos - typeSize);
    (KernelStack(k.pos - typeSize, k.data), slot.value)
  }

  /** The `unwrap` in `push_on` never fails while the stack keeps its
      invariant and the value fits below the top. */
  lemma PushCannotFail(k: KernelStack, typeSize: nat)
    requires CanPush(k, typeSize)
    ensures AsType(k.data, typeSize, k.pos - typeSize).Ok?
  {
    Pow2Constants();
  }

  /** A push moves `sp` down by exactly the value's size, and the value
      occupies the bytes from the new `sp` up to the old one. */
  lemma PushLowersSp(k: KernelStack, typeSize: nat)
    requires CanPush(k, typeSize) && k.data.start.raw + k.pos < WINDOW
    ensures var (k', slot) := PushOn(k, typeSize);
      Sp(k').raw + typeSize == Sp(k).raw && slot == Sp(k').raw
  {}

  /** Pushes stay inside the frame: after any sequence of pushes that each
      fit, `sp` lies between the frame's kernel start and end. */
  lemma {:induction false} PushesStayInFrame(k: KernelStack, sizes: seq<nat>)
    requires Inv(k) && InKernelWindow(k.data)
    requires Sum(sizes) <= k.pos
    ensures var k' := PushAll(k, sizes);
      Inv(k') && k'.pos == k.pos - Sum(sizes) &&
      KernelStart(k.data) <= Sp(k').raw <= KernelStart(k.data) + Bytes(k.data.size)
    decreases |sizes|
  {
    if |sizes| > 0 {
      PushesStayInFrame(PushOn(k, sizes[0]).0, sizes[1..]);
    }
  }

  function Sum(sizes: seq<nat>): nat {
    if |sizes| == 0 then 0 else sizes[0] + Sum(sizes[1..])
  }

  /** Push values of the given sizes in order.  Once the first push has
      lowered the top, every later top address is below the window's end. */
  function PushAll(k: KernelStack, sizes: seq<nat>): (k': KernelStack)
    requires Inv(k) && Sum(sizes) <= k.pos
    requires |sizes| > 0 ==> k.data.start.raw + k.pos - sizes[0] < WINDOW
    ensures k'.data == k.data && Inv(k') && k'.pos == k.pos - Sum(sizes)
    decreases |sizes|
  {
    if |sizes| == 0 then k else PushAll(PushOn(k, sizes[0]).0, sizes[1..])
  }
}
