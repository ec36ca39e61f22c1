/** The stack frame allocator and the owning frame handle
    (mm/frame_alloc.rs).  Fresh page numbers come from a cursor that runs from
    `start` towards `end`; freed ones are pushed on a stack and handed out
    again first. */
module FrameAlloc {
  import opened Bits
  import opened Wrappers
  import opened PageMode

  datatype FrameAllocError = FrameAllocError

  datatype StackFrameAllocator = StackFrameAllocator(
    current: PhysPageNum, end: PhysPageNum, recycled: seq<PhysPageNum>)

  /** `new(start, end)`: nothing recycled yet. */
  function New(start: PhysPageNum, end: PhysPageNum): (a: StackFrameAllocator)
    ensures Valid(a)
    ensures forall p :: IsFree(a, p) <==> IsWithinRange(p, start, end)
  {
    StackFrameAllocator(start, end, [])
  }

  /** A page number the allocator may still hand out. */
  predicate IsFree(a: StackFrameAllocator, p: PhysPageNum) {
    IsWithinRange(p, a.current, a.end) || p in a.recycled
  }

  /** The recycled stack holds no duplicate and nothing the cursor has not
      yet passed. */
  predicate Valid(a: StackFrameAllocator) {
    (forall i, j :: 0 <= i < j < |a.recycled| ==> a.recycled[i] != a.recycled[j]) &&
    (forall i :: 0 <= i < |a.recycled| ==> !IsWithinRange(a.recycled[i], a.current, a.end))
  }

  /** Advancing the cursor removes exactly the page it stood on. */
  lemma CursorStep(p: PhysPageNum, c: PhysPageNum, e: PhysPageNum)
    requires c != e
    ensures IsWithinRange(p, NextPage(c), e) <==> IsWithinRange(p, c, e) && p != c
  {
    WithinRangeIsRingOrder(p, c, e);
    WithinRangeIsRingOrder(p, NextPage(c), e);
    NextPageStepsRing(e, c);
    NextPageStepsRing(p, c);
    NextPageStepsRing(c, c);
  }

  /** `allocate_frame`: pop the most recently recycled page, else take the
      cursor's page and advance the cursor by one page, else fail when the
      cursor has reached `end`. */
  function AllocateFrame(a: StackFrameAllocator): (res: (Result<PhysPageNum, FrameAllocError>, StackFrameAllocator))
    requires Valid(a)
    ensures Valid(res.1)
    ensures res.0.Err? <==> |a.recycled| == 0 && a.current == a.end
    ensures res.0.Err? ==> res.1 == a
    ensures res.0.Ok? ==> IsFree(a, res.0.value) && !IsFree(res.1, res.0.value)
    ensures res.0.Ok? ==> forall p :: p != res.0.value ==> (IsFree(res.1, p) <==> IsFree(a, p))
    ensures res.1.end == a.end
    ensures |a.recycled| > 0 ==>
      res.0 == Ok(a.recycled[|a.recycled| - 1]) && res.1.recycled == a.recycled[..|a.recycled| - 1] && res.1.current == a.current
    ensures |a.recycled| == 0 && a.current != a.end ==>
      res.0 == Ok(a.current) && res.1.current == NextPage(a.current) && res.1.recycled == a.recycled
  {
    if |a.recycled| > 0 then
      var p := a.recycled[|a.recycled| - 1];
      var rest := a.recycled[..|a.recycled| - 1];
      assert forall q :: q in a.recycled <==> q in rest || q == p;
      (Ok(p), a.(recycled := rest))
    else if a.current == a.end then
      (Err(FrameAllocError), a)
    else
      forall p ensures IsWithinRange(p, NextPage(a.current), a.end) <==> IsWithinRange(p, a.current, a.end) && p != a.current {
        CursorStep(p, a.current, a.end);
      }
      (Ok(a.current), a.(current := NextPage(a.current)))
  }

  /** Nothing is free when allocation fails. */
  lemma ExhaustedMeansNothingFree(a: StackFrameAllocator, p: PhysPageNum)
    requires Valid(a) && AllocateFrame(a).0.Err?
    ensures !IsFree(a, p)
  {}

  /** `deallocate_frame`: a page that is still free (inside the cursor's
      range or already recycled) is a fatal double free; otherwise it is
      pushed on the recycled stack. */
  function DeallocateFrame(a: StackFrameAllocator, p: PhysPageNum): (r: StackFrameAllocator)
    requires Valid(a)
    requires !IsFree(a, p)
    ensures Valid(r) && IsFree(r, p)
    ensures forall q :: q != p ==> (IsFree(r, q) <==> IsFree(a, q))
    ensures r.current == a.current && r.end == a.end
  {
    a.(recycled := a.recycled + [p])
  }

  /** A freed page is the next one handed out, and the allocator is back
      where it was. */
  lemma DeallocateThenAllocate(a: StackFrameAllocator, p: PhysPageNum)
    requires Valid(a) && !IsFree(a, p)
    ensures AllocateFrame(DeallocateFrame(a, p)) == (Ok(p), a)
  {
    assert (a.recycled + [p])[..|a.recycled|] == a.recycled;
  }

  /** A page just handed out can be given back without a fatal error, and
      then every page's status is as before the allocation. */
  lemma AllocateThenDeallocate(a: StackFrameAllocator, q: PhysPageNum)
    requires Valid(a) && AllocateFrame(a).0.Ok?
    ensures var (r, b) := AllocateFrame(a);
      !IsFree(b, r.value) && (IsFree(DeallocateFrame(b, r.value), q) <==> IsFree(a, q))
  {}

  /** Two allocations in a row never return the same page. */
  lemma AllocationsDistinct(a: StackFrameAllocator)
    requires Valid(a)
    ensures var (r1, b) := AllocateFrame(a);
      var (r2, _) := AllocateFrame(b);
      r1.Ok? && r2.Ok? ==> r1.value != r2.value
  {}

  /** `FrameBox`: a frame owned together with the allocator it came from. */
  datatype FrameBox = FrameBox(ppn: PhysPageNum, frameAlloc: StackFrameAllocator)

  /** `FrameBox::try_new_in`: allocate, or pass the allocation error on. */
  function TryNewIn(a: StackFrameAllocator): (r: Result<FrameBox, FrameAllocError>)
    requires Valid(a)
    ensures r.Err? <==> AllocateFrame(a).0.Err?
    ensures r.Ok? ==> IsFree(a, r.value.ppn) && !IsFree(r.value.frameAlloc, r.value.ppn)
    ensures r.Ok? ==> Valid(r.value.frameAlloc)
    ensures r.Ok? ==> forall p :: p != r.value.ppn ==> (IsFree(r.value.frameAlloc, p) <==> IsFree(a, p))
  {
    var (res, a') := AllocateFrame(a);
    match res
    case Err(e) => Err(e)
    case Ok(p) => Ok(FrameBox(p, a'))
  }

  /** Dropping a `FrameBox` returns its page to its allocator. */
  function DropBox(b: FrameBox): (a: StackFrameAllocator)
    requires Valid(b.frameAlloc) && !IsFree(b.frameAlloc, b.ppn)
    ensures Valid(a) && IsFree(a, b.ppn)
  {
    DeallocateFrame(b.frameAlloc, b.ppn)
  }

  /** Making a box and dropping it leaves every page as free as before. */
  lemma BoxRoundTrip(a: StackFrameAllocator, q: PhysPageNum)
    requires Valid(a) && TryNewIn(a).Ok?
    ensures IsFree(DropBox(TryNewIn(a).value), q) <==> IsFree(a, q)
  {}
}
