/** The frame objects of frame.rs: a frame size, the data frame that owns
    physical memory, and the guard and lazy frames that only reserve room.
    Memory is not modelled byte by byte: a view into a data frame is its
    kernel address and length. */
module Frame {
  import opened Bits
  import opened Wrappers
  import opened AddrType
  import PageSize

  datatype FrameSize = Size4Kb | Size2Mb | Size1Gb

  /** The enum's discriminant: the frame size in bytes. */
  function Bytes(s: FrameSize): (r: u64)
    ensures r == PageSize.Bytes(Rank(s))
  {
    match s
    case Size4Kb => 4096
    case Size2Mb => 4096 * 512
    case Size1Gb => 4096 * 512 * 512
  }

  /** The page size with the same place in the order of sizes. */
  function Rank(s: FrameSize): PageSize.Size {
    match s
    case Size4Kb => PageSize.Size4KiB
    case Size2Mb => PageSize.Size2MiB
    case Size1Gb => PageSize.Size1GiB
  }

  /** The derived order of the enum agrees with the order of the sizes, and
      no two sizes share a discriminant. */
  lemma BytesStrictlyOrdered(s: FrameSize, t: FrameSize)
    ensures Bytes(s) == Bytes(t) <==> s == t
    ensures Bytes(s) < Bytes(t) <==> Order(s) < Order(t)
  {}

  function Order(s: FrameSize): nat {
    match s
    case Size4Kb => 0
    case Size2Mb => 1
    case Size1Gb => 2
  }

  /** A data frame: where it starts and how large it is.  The start is a
      physical address, which only `PhysAddr::new` builds. */
  datatype DataFrame = DataFrame(start: Addr, size: FrameSize)

  predicate WellFormed(d: DataFrame) {
    d.start.space == Phys && Valid(d.start)
  }

  /** A frame of an address space: data, an unmapped guard, or a frame to
      be filled on first touch. */
  datatype Frame =
    | Data(data: DataFrame)
    | Guard(guardSize: FrameSize)
    | Lazy(lazySize: FrameSize)

  /** `Frame::frame_size`: the size of the wrapped frame. */
  function FrameSizeOf(f: Frame): (r: FrameSize)
    ensures f.Data? ==> r == f.data.size
    ensures f.Guard? ==> r == f.guardSize
    ensures f.Lazy? ==> r == f.lazySize
  {
    match f
    case Data(d) => d.size
    case Guard(s) => s
    case Lazy(s) => s
  }

  /** `DataFrame::new`, with `frame_addr` and `frame_size` reading back
      what it stored. */
  function NewData(start: Addr, size: FrameSize): (d: DataFrame)
    ensures d.start == start && FrameSizeOf(Data(d)) == size
  {
    DataFrame(start, size)
  }

  /** `GuardFrame::new` and `LazyFrame::new` keep the size they are given. */
  lemma ReservedFramesKeepSize(s: FrameSize)
    ensures FrameSizeOf(Guard(s)) == s && FrameSizeOf(Lazy(s)) == s
  {}

  /** A view of `count` values of `elemSize` bytes at a kernel address. */
  datatype View = View(addr: nat, count: nat)

  datatype FrameError = TypeTooBig

  /** The kernel address of the frame's first byte. */
  function KernelStart(d: DataFrame): (r: nat)
    requires WellFormed(d)
    ensures r == Base(Kernel) + d.start.raw
  {
    PhysToKernel(d.start).raw
  }

  /** The frame lies below the top of the 48-bit physical window, so its
      bytes, and the address just past them, have kernel addresses. */
  predicate InKernelWindow(d: DataFrame) {
    WellFormed(d) && d.start.raw + Bytes(d.size) < WINDOW
  }

  /** `as_slice` and `as_slice_mut` (the same check, a shared or an
      exclusive reference): `len` values of `elemSize` bytes from `offset`,
      refused when they would run past the frame.  The u64 product and sum
      must not overflow. */
  function AsSlice(d: DataFrame, elemSize: nat, offset: u64, len: u64): (r: Result<View, FrameError>)
    requires WellFormed(d) && elemSize * len + offset < WORD
    ensures r.Err? <==> elemSize * len + offset > Bytes(d.size)
    ensures r.Ok? ==> r.value.count == len
    ensures r.Ok? && InKernelWindow(d) ==>
      r.value.addr == KernelStart(d) + offset &&
      KernelStart(d) <= r.value.addr && r.value.addr + elemSize * len <= KernelStart(d) + Bytes(d.size)
  {
    if elemSize * len + offset > Bytes(d.size) then Err(TypeTooBig)
    else
      OffsetInWindow(d, offset);
      Ok(View(PhysToKernel(AddrType.Add(d.start, offset)).raw, len))
  }

  /** An offset within a frame that lies in the kernel window keeps the
      physical `+` in the window, so no renormalisation happens. */
  lemma OffsetInWindow(d: DataFrame, offset: u64)
    requires WellFormed(d) && offset <= Bytes(d.size)
    ensures d.start.raw + offset < WORD
    ensures InKernelWindow(d) ==> PhysToKernel(AddrType.Add(d.start, offset)).raw == KernelStart(d) + offset
  {
    Pow2Constants();
  }

  /** `as_type` and `as_type_mut`: one value of `typeSize` bytes at
      `offset`.  The pointer is the kernel address of the frame's start
      plus the offset, a plain u64 sum that must not overflow. */
  function AsType(d: DataFrame, typeSize: nat, offset: u64): (r: Result<nat, FrameError>)
    requires WellFormed(d) && typeSize + offset < WORD
    requires typeSize + offset <= Bytes(d.size) ==> KernelStart(d) + offset < WORD
    ensures r.Err? <==> typeSize + offset > Bytes(d.size)
    ensures r.Ok? ==> r.value == KernelStart(d) + offset
    ensures r.Ok? && InKernelWindow(d) ==> r.value + typeSize <= KernelStart(d) + Bytes(d.size)
  {
    if typeSize + offset > Bytes(d.size) then Err(TypeTooBig)
    else Ok(KernelStart(d) + offset)
  }

  /** Both views agree: a value read as a type is the one-element slice at
      the same offset. */
  lemma TypeIsOneElementSlice(d: DataFrame, typeSize: nat, offset: u64)
    requires InKernelWindow(d) && typeSize + offset < WORD
    ensures AsType(d, typeSize, offset).Ok? <==> AsSlice(d, typeSize, offset, 1).Ok?
    ensures AsType(d, typeSize, offset).Ok? ==> AsType(d, typeSize, offset).value == AsSlice(d, typeSize, offset, 1).value.addr
  {}

  /** Dropping a data frame hands it to the current allocator's
      `deallocate_frame`, which is not part of this model; the model keeps
      the frames handed over, in order. */
  function Drop(handedOver: seq<DataFrame>, d: DataFrame): (r: seq<DataFrame>)
    ensures multiset(r)[d] == multiset(handedOver)[d] + 1
    ensures forall e :: e != d ==> multiset(r)[e] == multiset(handedOver)[e]
    ensures |r| == |handedOver| + 1 && r[..|handedOver|] == handedOver
  {
    handedOver + [d]
  }
}
