/** The cell-based stack allocator of frame_allocator.rs and the frame drop
    of mm_type.rs.  Its cursor and recycled stack behave exactly as
    mm/frame_alloc.rs's allocator (`FrameAlloc`); this version hands out
    `MmType` frames and takes them back by reference. */
module FrameAllocator {
  import opened Wrappers
  import opened PageMode
  import opened MmType
  import FrameAlloc

  type Allocator = FrameAlloc.StackFrameAllocator

  /** `allocate`: the most recently recycled page, else the cursor's page
      with the cursor advanced by one, as a frame; or the allocation error. */
  function Allocate(a: Allocator): (res: (Result<PhysFrame, FrameAlloc.FrameAllocError>, Allocator))
    requires FrameAlloc.Valid(a)
    ensures FrameAlloc.Valid(res.1)
    ensures res.0.Err? <==> |a.recycled| == 0 && a.current == a.end
    ensures res.0.Ok? ==> FrameAlloc.IsFree(a, res.0.value.ppn) && !FrameAlloc.IsFree(res.1, res.0.value.ppn)
    ensures res.0.Ok? ==> forall p :: p != res.0.value.ppn ==> (FrameAlloc.IsFree(res.1, p) <==> FrameAlloc.IsFree(a, p))
    ensures |a.recycled| > 0 ==>
      res.0.Ok? && res.0.value.ppn == a.recycled[|a.recycled| - 1] &&
      res.1.recycled == a.recycled[..|a.recycled| - 1] && res.1.current == a.current
    ensures |a.recycled| == 0 && a.current != a.end ==>
      res.0.Ok? && res.0.value.ppn == a.current && res.1.current == NextPage(a.current) && res.1.recycled == a.recycled
  {
    var (r, a') := FrameAlloc.AllocateFrame(a);
    match r
    case Err(e) => (Err(e), a')
    case Ok(p) => (Ok(PhysFrame(p)), a')
  }

  /** `deallocate`: a frame whose page is still free is a fatal double free. */
  function Deallocate(a: Allocator, pf: PhysFrame): (r: Allocator)
    requires FrameAlloc.Valid(a) && !FrameAlloc.IsFree(a, pf.ppn)
    ensures FrameAlloc.Valid(r) && FrameAlloc.IsFree(r, pf.ppn)
    ensures forall q :: q != pf.ppn ==> (FrameAlloc.IsFree(r, q) <==> FrameAlloc.IsFree(a, q))
  {
    FrameAlloc.DeallocateFrame(a, pf.ppn)
  }

  /** Dropping a `PhysFrame` (mm_type.rs) gives it back to the current
      allocator; the frame then comes out of the next allocation. */
  lemma DropThenAllocate(a: Allocator, pf: PhysFrame)
    requires FrameAlloc.Valid(a) && !FrameAlloc.IsFree(a, pf.ppn)
    ensures Allocate(Deallocate(a, pf)) == (Ok(pf), a)
  {
    FrameAlloc.DeallocateThenAllocate(a, pf.ppn);
  }
}
