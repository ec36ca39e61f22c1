/** `PagedAddrSpace` of mm/page_space.rs: a root table, the frames of the
    tables created below it, and the allocator they come from, over a model
    of physical memory that maps every frame to the page table stored in it. */
module PagedSpace {
  import opened Bits
  import opened Wrappers
  import opened Address
  import opened PageMode
  import opened Arm64PageTable
  import opened Arm64PageMode
  import opened FrameAlloc
  import MapperSolver

  /** Physical memory read as page tables.  Every frame holds some table;
      a frame nobody initialised holds whatever it held before. */
  type Memory = PhysPageNum -> PageTable

  function Write(mem: Memory, p: PhysPageNum, t: PageTable): (r: Memory)
    ensures r(p) == t
    ensures forall q :: q != p ==> r(q) == mem(q)
  {
    q => if q == p then t else mem(q)
  }

  datatype PagedAddrSpace = PagedAddrSpace(
    root: FrameBox,
    frames: seq<FrameBox>,
    frameAlloc: StackFrameAllocator,
    mem: Memory)

  function RootPageNumber(s: PagedAddrSpace): PhysPageNum {
    s.root.ppn
  }

  /** Every page the allocator can still hand out fits the 36 page-number
      bits of a descriptor. */
  ghost predicate FitsDescriptor(a: StackFrameAllocator) {
    forall p :: IsFree(a, p) ==> p.n < Pow2(PPN_BITS)
  }

  /** The space owns its table frames: the allocator is consistent, fits
      descriptors, and counts the root and every recorded frame as in use;
      and no two of those frames are the same page. */
  ghost predicate Owns(s: PagedAddrSpace) {
    && Valid(s.frameAlloc) && FitsDescriptor(s.frameAlloc)
    && !IsFree(s.frameAlloc, s.root.ppn)
    && (forall k :: 0 <= k < |s.frames| ==> !IsFree(s.frameAlloc, s.frames[k].ppn))
    && (forall k :: 0 <= k < |s.frames| ==> s.frames[k].ppn != s.root.ppn)
    && (forall k1, k2 :: 0 <= k1 < k2 < |s.frames| ==> s.frames[k1].ppn != s.frames[k2].ppn)
  }

  /** `try_new_in`: allocate the root frame from a clone of the allocator
      and fill it with an empty table.  As written the space keeps the
      original allocator, in which the root page is still free. */
  function TryNewInAsWritten(a: StackFrameAllocator, mem: Memory): (r: Result<PagedAddrSpace, FrameAllocError>)
    requires Valid(a)
    ensures r.Err? <==> AllocateFrame(a).0.Err?
    ensures r.Ok? ==> r.value.frames == [] && r.value.frameAlloc == a
    ensures r.Ok? ==> IsFree(a, r.value.root.ppn)
    ensures r.Ok? ==> forall i :: 0 <= i < ENTRY_COUNT ==> IsUnused(r.value.mem(r.value.root.ppn)[i])
  {
    match FrameAlloc.TryNewIn(a)
    case Err(e) => Err(e)
    case Ok(b) => Ok(PagedAddrSpace(b, [], a, Write(mem, b.ppn, NewTable())))
  }

  /** `try_new_in` with the allocator shared between the space and its
      frames, so that the space's allocator knows the root is taken. */
  function TryNewIn(a: StackFrameAllocator, mem: Memory): (r: Result<PagedAddrSpace, FrameAllocError>)
    requires Valid(a) && FitsDescriptor(a)
    ensures r.Err? <==> AllocateFrame(a).0.Err?
    ensures r.Ok? ==> Owns(r.value) && r.value.frames == [] && IsFree(a, r.value.root.ppn)
    ensures r.Ok? ==> forall p :: p != r.value.root.ppn ==> (IsFree(r.value.frameAlloc, p) <==> IsFree(a, p))
    ensures r.Ok? ==> forall i :: 0 <= i < ENTRY_COUNT ==> IsUnused(r.value.mem(r.value.root.ppn)[i])
  {
    match FrameAlloc.TryNewIn(a)
    case Err(e) => Err(e)
    case Ok(b) => Ok(PagedAddrSpace(b, [], b.frameAlloc, Write(mem, b.ppn, NewTable())))
  }

  /** The chain of tables from `p` through `levels`: at each level, the
      entry `vpn` indexes must be valid, and its page is the next table. */
  function Follow(mem: Memory, p: PhysPageNum, levels: seq<Level>, vpn: VirtPageNum): (r: Option<PhysPageNum>)
    requires forall k :: 0 <= k < |levels| ==> levels[k] <= MAX_LEVEL
    decreases |levels|
  {
    if |levels| == 0 then Some(p)
    else
      var e := mem(p)[VpnIndex(vpn, levels[0])];
      if IsValid(e) then Follow(mem, GetPpn(e), levels[1..], vpn) else None
  }

  /** One new table frame.  With `shared` the space's allocator moves on
      past it; without, it comes from a clone and the space's allocator is
      left as it was, as `alloc_get_table` is written. */
  function NewFrame(s: PagedAddrSpace, shared: bool): (res: (Result<FrameBox, FrameAllocError>, PagedAddrSpace))
    requires Valid(s.frameAlloc)
    ensures Valid(res.1.frameAlloc)
    ensures res.1.root == s.root && res.1.frames == s.frames && res.1.mem == s.mem
    ensures res.0.Err? <==> AllocateFrame(s.frameAlloc).0.Err?
    ensures res.0.Ok? ==> IsFree(s.frameAlloc, res.0.value.ppn)
    ensures res.0.Ok? && shared ==> res.1.frameAlloc == res.0.value.frameAlloc
    ensures !shared || res.0.Err? ==> res.1 == s
  {
    match FrameAlloc.TryNewIn(s.frameAlloc)
    case Err(e) => (Err(e), s)
    case Ok(b) => (Ok(b), if shared then s.(frameAlloc := b.frameAlloc) else s)
  }

  /** The loop of `alloc_get_table` from table `p` through `levels`: follow
      a valid entry, or else allocate one frame, install it as a table
      entry, record it, and continue from it.  An allocation error stops the
      walk and keeps what was created so far. */
  function Walk(s: PagedAddrSpace, levels: seq<Level>, p: PhysPageNum, vpn: VirtPageNum, shared: bool)
    : (res: (Result<PhysPageNum, FrameAllocError>, PagedAddrSpace))
    requires Valid(s.frameAlloc)
    requires forall k :: 0 <= k < |levels| ==> levels[k] <= MAX_LEVEL
    ensures Valid(res.1.frameAlloc) && res.1.root == s.root
    ensures |s.frames| <= |res.1.frames| <= |s.frames| + |levels| && res.1.frames[..|s.frames|] == s.frames
    ensures res.0.Err? ==> AllocateFrame(res.1.frameAlloc).0.Err?
    decreases |levels|
  {
    if |levels| == 0 then (Ok(p), s)
    else
      var t := s.mem(p);
      var idx := VpnIndex(vpn, levels[0]);
      if IsValid(t[idx]) then Walk(s, levels[1..], GetPpn(t[idx]), vpn, shared)
      else
        var (r, s1) := NewFrame(s, shared);
        match r
        case Err(e) => (Err(e), s1)
        case Ok(b) =>
          var s2 := s1.(mem := Write(s1.mem, p, SetEntry(t, idx, SetTable(t[idx], b.ppn))), frames := s1.frames + [b]);
          var res := Walk(s2, levels[1..], b.ppn, vpn, shared);
          assert res.1.frames[..|s.frames|] == res.1.frames[..|s2.frames|][..|s.frames|];
          res
  }

  /** `alloc_get_table(level, vpn)`, as written: new frames come from
      clones of an allocator that never moves on. */
  function AllocGetTableAsWritten(s: PagedAddrSpace, level: Level, vpn: VirtPageNum)
    : (res: (Result<PhysPageNum, FrameAllocError>, PagedAddrSpace))
    requires Valid(s.frameAlloc) && level <= MAX_LEVEL
    ensures res.1.frameAlloc == s.frameAlloc && res.1.root == s.root
    ensures SameNewFrames(s, res.1) && res.1.frames[..|s.frames|] == s.frames
    ensures res.0.Err? ==> AllocateFrame(s.frameAlloc).0.Err?
  {
    WalkKeepsClonedAllocator(s, VisitLevelsBefore(level), s.root.ppn, vpn);
    Walk(s, VisitLevelsBefore(level), s.root.ppn, vpn, false)
  }

  /** `alloc_get_table(level, vpn)` with the allocator shared, so that each
      new table gets its own frame. */
  function AllocGetTable(s: PagedAddrSpace, level: Level, vpn: VirtPageNum)
    : (res: (Result<PhysPageNum, FrameAllocError>, PagedAddrSpace))
    requires Owns(s) && level <= MAX_LEVEL
    ensures Owns(res.1) && res.1.root == s.root
    ensures |s.frames| <= |res.1.frames| && res.1.frames[..|s.frames|] == s.frames
    ensures res.0.Err? ==> AllocateFrame(res.1.frameAlloc).0.Err?
    ensures res.0.Ok? ==> Follow(res.1.mem, s.root.ppn, VisitLevelsBefore(level), vpn) == Some(res.0.value)
  {
    WalkOwns(s, VisitLevelsBefore(level), s.root.ppn, vpn);
    WalkReaches(s, VisitLevelsBefore(level), s.root.ppn, vpn, true);
    Walk(s, VisitLevelsBefore(level), s.root.ppn, vpn, true)
  }

  /** As written, the walk's allocator never moves on, so every table
      frame it records is the one box that allocator hands out first. */
  lemma {:induction false} WalkKeepsClonedAllocator(s: PagedAddrSpace, levels: seq<Level>, p: PhysPageNum, vpn: VirtPageNum)
    requires Valid(s.frameAlloc)
    requires forall k :: 0 <= k < |levels| ==> levels[k] <= MAX_LEVEL
    ensures Walk(s, levels, p, vpn, false).1.frameAlloc == s.frameAlloc
    ensures SameNewFrames(s, Walk(s, levels, p, vpn, false).1)
    decreases |levels|
  {
    if |levels| > 0 {
      var t := s.mem(p);
      var idx := VpnIndex(vpn, levels[0]);
      if IsValid(t[idx]) {
        WalkKeepsClonedAllocator(s, levels[1..], GetPpn(t[idx]), vpn);
      } else {
        var (r, s1) := NewFrame(s, false);
        if r.Ok? {
          var b := r.value;
          var s2 := s1.(mem := Write(s1.mem, p, SetEntry(t, idx, SetTable(t[idx], b.ppn))), frames := s1.frames + [b]);
          WalkKeepsClonedAllocator(s2, levels[1..], b.ppn, vpn);
          SameNewFramesTrans(s, s2, Walk(s2, levels[1..], b.ppn, vpn, false).1);
        }
      }
    }
  }

  /** Every frame recorded after those of `s` is the box that `s`'s
      allocator hands out first. */
  predicate SameNewFrames(s: PagedAddrSpace, s': PagedAddrSpace)
    requires Valid(s.frameAlloc)
  {
    && |s.frames| <= |s'.frames|
    && forall k :: |s.frames| <= k < |s'.frames| ==>
         FrameAlloc.TryNewIn(s.frameAlloc) == Ok(s'.frames[k])
  }

  lemma SameNewFramesTrans(s: PagedAddrSpace, s1: PagedAddrSpace, s2: PagedAddrSpace)
    requires Valid(s.frameAlloc) && Valid(s1.frameAlloc) && s1.frameAlloc == s.frameAlloc
    requires SameNewFrames(s, s1) && SameNewFrames(s1, s2) && s2.frames[..|s1.frames|] == s1.frames
    ensures SameNewFrames(s, s2)
  {}

  /** Valid entries before a walk are unchanged after it: the walk only
      ever writes entries it found invalid. */
  ghost predicate KeepsValid(m0: Memory, m1: Memory) {
    forall q, i :: 0 <= i < ENTRY_COUNT && IsValid(m0(q)[i]) ==> m1(q)[i] == m0(q)[i]
  }

  lemma {:induction false} WalkKeepsValid(s: PagedAddrSpace, levels: seq<Level>, p: PhysPageNum, vpn: VirtPageNum, shared: bool)
    requires Valid(s.frameAlloc)
    requires forall k :: 0 <= k < |levels| ==> levels[k] <= MAX_LEVEL
    ensures KeepsValid(s.mem, Walk(s, levels, p, vpn, shared).1.mem)
    decreases |levels|
  {
    if |levels| > 0 {
      var t := s.mem(p);
      var idx := VpnIndex(vpn, levels[0]);
      if IsValid(t[idx]) {
        WalkKeepsValid(s, levels[1..], GetPpn(t[idx]), vpn, shared);
      } else {
        var (r, s1) := NewFrame(s, shared);
        if r.Ok? {
          var b := r.value;
          var s2 := s1.(mem := Write(s1.mem, p, SetEntry(t, idx, SetTable(t[idx], b.ppn))), frames := s1.frames + [b]);
          WalkKeepsValid(s2, levels[1..], b.ppn, vpn, shared);
          assert KeepsValid(s.mem, s2.mem);
        }
      }
    }
  }

  /** A walk that succeeds leaves a chain of valid table entries from its
      start to the table it returns, as long as every frame the walk
      allocates fits a descriptor. */
  lemma {:induction false} WalkReaches(s: PagedAddrSpace, levels: seq<Level>, p: PhysPageNum, vpn: VirtPageNum, shared: bool)
    requires Valid(s.frameAlloc) && FitsDescriptor(s.frameAlloc)
    requires forall k :: 0 <= k < |levels| ==> levels[k] <= MAX_LEVEL
    ensures var (r, s') := Walk(s, levels, p, vpn, shared);
      r.Ok? ==> Follow(s'.mem, p, levels, vpn) == Some(r.value)
    decreases |levels|, 1
  {
    if |levels| > 0 {
      var t := s.mem(p);
      var idx := VpnIndex(vpn, levels[0]);
      if IsValid(t[idx]) {
        WalkReaches(s, levels[1..], GetPpn(t[idx]), vpn, shared);
        WalkKeepsValid(s, levels[1..], GetPpn(t[idx]), vpn, shared);
      } else {
        WalkReachesNewTable(s, levels, p, vpn, shared);
      }
    }
  }

  /** The step of `WalkReaches` that installs a new table. */
  lemma {:induction false} WalkReachesNewTable(s: PagedAddrSpace, levels: seq<Level>, p: PhysPageNum, vpn: VirtPageNum, shared: bool)
    requires Valid(s.frameAlloc) && FitsDescriptor(s.frameAlloc)
    requires forall k :: 0 <= k < |levels| ==> levels[k] <= MAX_LEVEL
    requires |levels| > 0 && !IsValid(s.mem(p)[VpnIndex(vpn, levels[0])])
    ensures var (r, s') := Walk(s, levels, p, vpn, shared);
      r.Ok? ==> Follow(s'.mem, p, levels, vpn) == Some(r.value)
    decreases |levels|, 0
  {
    var t := s.mem(p);
    var idx := VpnIndex(vpn, levels[0]);
    var (r1, s1) := NewFrame(s, shared);
    if r1.Ok? {
      var b := r1.value;
      var e := SetTable(t[idx], b.ppn);
      var s2 := s1.(mem := Write(s1.mem, p, SetEntry(t, idx, e)), frames := s1.frames + [b]);
      assert Walk(s, levels, p, vpn, shared) == Walk(s2, levels[1..], b.ppn, vpn, shared);
      assert GetPpn(e) == b.ppn by {
        GetPpnRoundTrip(t[idx], b.ppn, 0, 0);
      }
      assert FitsDescriptor(s2.frameAlloc) by {
        if shared {
          assert forall q :: IsFree(s2.frameAlloc, q) ==> IsFree(s.frameAlloc, q);
        }
      }
      WalkReaches(s2, levels[1..], b.ppn, vpn, shared);
      WalkKeepsValid(s2, levels[1..], b.ppn, vpn, shared);
    }
  }

  /** With the allocator shared, a walk keeps the space owning its frames:
      each new table frame was free, so it is neither the root nor any
      recorded frame, and it is in use afterwards. */
  lemma {:induction false} WalkOwns(s: PagedAddrSpace, levels: seq<Level>, p: PhysPageNum, vpn: VirtPageNum)
    requires Owns(s)
    requires forall k :: 0 <= k < |levels| ==> levels[k] <= MAX_LEVEL
    ensures Owns(Walk(s, levels, p, vpn, true).1)
    decreases |levels|
  {
    if |levels| > 0 {
      var t := s.mem(p);
      var idx := VpnIndex(vpn, levels[0]);
      if IsValid(t[idx]) {
        WalkOwns(s, levels[1..], GetPpn(t[idx]), vpn);
      } else {
        var (r, s1) := NewFrame(s, true);
        if r.Ok? {
          var b := r.value;
          var s2 := s1.(mem := Write(s1.mem, p, SetEntry(t, idx, SetTable(t[idx], b.ppn))), frames := s1.frames + [b]);
          OwnsNewFrame(s, b, s2);
          WalkOwns(s2, levels[1..], b.ppn, vpn);
        }
      }
    }
  }

  /** Recording a frame just taken from the space's own allocator keeps
      the space owning its frames. */
  lemma OwnsNewFrame(s: PagedAddrSpace, b: FrameBox, s2: PagedAddrSpace)
    requires Owns(s) && FrameAlloc.TryNewIn(s.frameAlloc) == Ok(b)
    requires s2.root == s.root && s2.frameAlloc == b.frameAlloc && s2.frames == s.frames + [b]
    ensures Owns(s2)
  {
    assert forall k :: 0 <= k < |s.frames| ==> s2.frames[k] == s.frames[k];
    assert s2.frames[|s.frames|] == b;
    assert forall q :: IsFree(s2.frameAlloc, q) ==> IsFree(s.frameAlloc, q);
  }

  /** A walk along a chain of valid entries that already exists changes
      nothing, allocates nothing, and ends where the chain ends. */
  lemma {:induction false} WalkExisting(s: PagedAddrSpace, levels: seq<Level>, p: PhysPageNum, vpn: VirtPageNum, shared: bool)
    requires Valid(s.frameAlloc)
    requires forall k :: 0 <= k < |levels| ==> levels[k] <= MAX_LEVEL
    requires Follow(s.mem, p, levels, vpn).Some?
    ensures Walk(s, levels, p, vpn, shared) == (Ok(Follow(s.mem, p, levels, vpn).value), s)
    decreases |levels|
  {
    if |levels| > 0 {
      var e := s.mem(p)[VpnIndex(vpn, levels[0])];
      WalkExisting(s, levels[1..], GetPpn(e), vpn, shared);
    }
  }

  /** The space after a walk with a shared allocator has taken frame `b`
      and pointed entry `idx` of table `p` at it. */
  function InstallTable(s: PagedAddrSpace, p: PhysPageNum, idx: nat, b: FrameBox): (r: PagedAddrSpace)
    requires idx < ENTRY_COUNT
    ensures r.root == s.root && r.frames == s.frames + [b] && r.frameAlloc == b.frameAlloc
    ensures forall q :: q != p ==> r.mem(q) == s.mem(q)
  {
    var t := s.mem(p);
    s.(mem := Write(s.mem, p, SetEntry(t, idx, SetTable(t[idx], b.ppn))), frames := s.frames + [b],
       frameAlloc := b.frameAlloc)
  }

  /** One step of the walk through a valid entry. */
  lemma WalkStepValid(s: PagedAddrSpace, levels: seq<Level>, p: PhysPageNum, vpn: VirtPageNum, shared: bool)
    requires Valid(s.frameAlloc)
    requires forall k :: 0 <= k < |levels| ==> levels[k] <= MAX_LEVEL
    requires |levels| > 0 && IsValid(s.mem(p)[VpnIndex(vpn, levels[0])])
    ensures Walk(s, levels, p, vpn, shared)
         == Walk(s, levels[1..], GetPpn(s.mem(p)[VpnIndex(vpn, levels[0])]), vpn, shared)
  {
  }

  /** One step of the walk with a shared allocator through an invalid
      entry: the allocator's next frame becomes the table below. */
  lemma WalkStepNew(s: PagedAddrSpace, levels: seq<Level>, p: PhysPageNum, vpn: VirtPageNum, b: FrameBox)
    requires Valid(s.frameAlloc) && !IsFree(s.frameAlloc, p)
    requires forall k :: 0 <= k < |levels| ==> levels[k] <= MAX_LEVEL
    requires |levels| > 0 && !IsValid(s.mem(p)[VpnIndex(vpn, levels[0])])
    requires FrameAlloc.TryNewIn(s.frameAlloc) == Ok(b)
    ensures b.ppn != p
    ensures Walk(s, levels, p, vpn, true)
         == Walk(InstallTable(s, p, VpnIndex(vpn, levels[0]), b), levels[1..], b.ppn, vpn, true)
  {
    assert NewFrame(s, true) == (Ok(b), s.(frameAlloc := b.frameAlloc));
  }

  /** As written, a table the walk creates is installed without being
      initialised: its frame keeps whatever it held before. */
  lemma NewLeafTableNotZeroed(s: PagedAddrSpace, l: Level, p: PhysPageNum, vpn: VirtPageNum)
    requires Valid(s.frameAlloc) && !IsFree(s.frameAlloc, p) && l <= MAX_LEVEL
    requires !IsValid(s.mem(p)[VpnIndex(vpn, l)])
    ensures var (r, s') := Walk(s, [l], p, vpn, true);
      r.Ok? ==> r.value != p && s'.mem(r.value) == s.mem(r.value)
  {
    var r1 := FrameAlloc.TryNewIn(s.frameAlloc);
    if r1.Ok? {
      WalkStepNew(s, [l], p, vpn, r1.value);
    }
  }

  /** As written, a stale valid entry left in a recycled frame is followed:
      when the walk installs that frame as a new table, the next level's
      entry it already holds is taken as the way down instead of a second
      new table, so a two-level walk ends on whatever page that entry names. */
  lemma StaleEntryFollowed(s: PagedAddrSpace, levels: seq<Level>, p: PhysPageNum, vpn: VirtPageNum, b: FrameBox)
    requires Valid(s.frameAlloc) && !IsFree(s.frameAlloc, p)
    requires forall k :: 0 <= k < |levels| ==> levels[k] <= MAX_LEVEL
    requires |levels| >= 2 && !IsValid(s.mem(p)[VpnIndex(vpn, levels[0])])
    requires FrameAlloc.TryNewIn(s.frameAlloc) == Ok(b) && IsValid(s.mem(b.ppn)[VpnIndex(vpn, levels[1])])
    ensures Walk(s, levels, p, vpn, true)
         == Walk(InstallTable(s, p, VpnIndex(vpn, levels[0]), b), levels[2..],
                 GetPpn(s.mem(b.ppn)[VpnIndex(vpn, levels[1])]), vpn, true)
    ensures |levels| == 2 ==>
              Walk(s, levels, p, vpn, true).0 == Ok(GetPpn(s.mem(b.ppn)[VpnIndex(vpn, levels[1])]))
  {
  }

  /** The space after a walk has taken frame `b`, filled it with an empty
      table and pointed entry `idx` of table `p` at it. */
  function InstallZeroedTable(s: PagedAddrSpace, p: PhysPageNum, idx: nat, b: FrameBox): (r: PagedAddrSpace)
    requires idx < ENTRY_COUNT
    ensures r.root == s.root && r.frames == s.frames + [b] && r.frameAlloc == b.frameAlloc
    ensures b.ppn != p ==> r.mem(b.ppn) == NewTable()
    ensures forall q :: q != p && q != b.ppn ==> r.mem(q) == s.mem(q)
  {
    var t := s.mem(p);
    s.(mem := Write(Write(s.mem, b.ppn, NewTable()), p, SetEntry(t, idx, SetTable(t[idx], b.ppn))),
       frames := s.frames + [b], frameAlloc := b.frameAlloc)
  }

  /** The walk as evidently intended: the allocator is shared, and each new
      table frame is filled with an empty table before it is installed. */
  function WalkZeroing(s: PagedAddrSpace, levels: seq<Level>, p: PhysPageNum, vpn: VirtPageNum)
    : (res: (Result<PhysPageNum, FrameAllocError>, PagedAddrSpace))
    requires Valid(s.frameAlloc)
    requires forall k :: 0 <= k < |levels| ==> levels[k] <= MAX_LEVEL
    ensures Valid(res.1.frameAlloc) && res.1.root == s.root
    ensures |s.frames| <= |res.1.frames| <= |s.frames| + |levels| && res.1.frames[..|s.frames|] == s.frames
    ensures res.0.Err? ==> AllocateFrame(res.1.frameAlloc).0.Err?
    decreases |levels|
  {
    if |levels| == 0 then (Ok(p), s)
    else
      var idx := VpnIndex(vpn, levels[0]);
      if IsValid(s.mem(p)[idx]) then WalkZeroing(s, levels[1..], GetPpn(s.mem(p)[idx]), vpn)
      else
        match FrameAlloc.TryNewIn(s.frameAlloc)
        case Err(e) => (Err(e), s)
        case Ok(b) =>
          var s2 := InstallZeroedTable(s, p, idx, b);
          var res := WalkZeroing(s2, levels[1..], b.ppn, vpn);
          assert res.1.frames[..|s.frames|] == res.1.frames[..|s2.frames|][..|s.frames|];
          res
  }

  /** One step of the zeroing walk through an invalid entry: it fails when
      the allocator does, and otherwise goes on below the frame it took,
      which now holds an empty table. */
  lemma WalkZeroingStepNew(s: PagedAddrSpace, levels: seq<Level>, p: PhysPageNum, vpn: VirtPageNum)
    requires Valid(s.frameAlloc) && !IsFree(s.frameAlloc, p)
    requires forall k :: 0 <= k < |levels| ==> levels[k] <= MAX_LEVEL
    requires |levels| > 0 && !IsValid(s.mem(p)[VpnIndex(vpn, levels[0])])
    ensures FrameAlloc.TryNewIn(s.frameAlloc).Err? ==> WalkZeroing(s, levels, p, vpn).0.Err?
    ensures FrameAlloc.TryNewIn(s.frameAlloc).Ok? ==>
              var b := FrameAlloc.TryNewIn(s.frameAlloc).value;
              var s2 := InstallZeroedTable(s, p, VpnIndex(vpn, levels[0]), b);
              && b.ppn != p
              && Valid(s2.frameAlloc) && !IsFree(s2.frameAlloc, b.ppn)
              && s2.mem(b.ppn) == NewTable()
              && (|levels| > 1 ==> !IsValid(s2.mem(b.ppn)[VpnIndex(vpn, levels[1])]))
              && WalkZeroing(s, levels, p, vpn) == WalkZeroing(s2, levels[1..], b.ppn, vpn)
  {
    var r1 := FrameAlloc.TryNewIn(s.frameAlloc);
    if r1.Ok? && |levels| > 1 {
      var s2 := InstallZeroedTable(s, p, VpnIndex(vpn, levels[0]), r1.value);
      assert r1.value.ppn != p;
      TypeBits(s2.mem(r1.value.ppn)[VpnIndex(vpn, levels[1])]);
    }
  }

  /** The zeroing walk's last level: when it creates a table there, that
      table is the one it returns, and it is empty. */
  lemma WalkZeroingLastLevel(s: PagedAddrSpace, levels: seq<Level>, p: PhysPageNum, vpn: VirtPageNum)
    requires Valid(s.frameAlloc) && !IsFree(s.frameAlloc, p)
    requires forall k :: 0 <= k < |levels| ==> levels[k] <= MAX_LEVEL
    requires |levels| == 1 && !IsValid(s.mem(p)[VpnIndex(vpn, levels[0])])
    ensures var res := WalkZeroing(s, levels, p, vpn);
      res.0.Ok? ==>
        && |res.1.frames| == |s.frames| + 1
        && res.0.value == res.1.frames[|res.1.frames| - 1].ppn
        && res.1.mem(res.0.value) == NewTable()
  {
    WalkZeroingStepNew(s, levels, p, vpn);
    var r1 := FrameAlloc.TryNewIn(s.frameAlloc);
    if r1.Ok? {
      var s2 := InstallZeroedTable(s, p, VpnIndex(vpn, levels[0]), r1.value);
      assert WalkZeroing(s2, levels[1..], r1.value.ppn, vpn) == (Ok(r1.value.ppn), s2);
      assert s2.frames[|s2.frames| - 1] == r1.value;
    }
  }

  /** With new tables zeroed, once the walk meets an invalid entry it
      creates a fresh table for every remaining level and never follows an
      entry it did not write: it either fails or returns a table that is
      empty. */
  lemma {:induction false} WalkZeroingFreshChain(s: PagedAddrSpace, levels: seq<Level>, p: PhysPageNum, vpn: VirtPageNum)
    requires Valid(s.frameAlloc) && !IsFree(s.frameAlloc, p)
    requires forall k :: 0 <= k < |levels| ==> levels[k] <= MAX_LEVEL
    requires |levels| > 0 && !IsValid(s.mem(p)[VpnIndex(vpn, levels[0])])
    ensures var res := WalkZeroing(s, levels, p, vpn);
      res.0.Ok? ==>
        && |res.1.frames| == |s.frames| + |levels|
        && forall i :: 0 <= i < ENTRY_COUNT ==> IsUnused(res.1.mem(res.0.value)[i])
    decreases |levels|
  {
    if |levels| == 1 {
      WalkZeroingLastLevel(s, levels, p, vpn);
    } else {
      WalkZeroingStepNew(s, levels, p, vpn);
      var r1 := FrameAlloc.TryNewIn(s.frameAlloc);
      if r1.Ok? {
        var s2 := InstallZeroedTable(s, p, VpnIndex(vpn, levels[0]), r1.value);
        WalkZeroingFreshChain(s2, levels[1..], r1.value.ppn, vpn);
      }
    }
  }

  /** A walk result that, when it succeeds, names the last frame the space
      owns. */
  predicate EndsOnLastFrame(res: (Result<PhysPageNum, FrameAllocError>, PagedAddrSpace)) {
    res.0.Ok? ==> |res.1.frames| > 0 && res.0.value == res.1.frames[|res.1.frames| - 1].ppn
  }

  /** The table the zeroing walk returns after meeting an invalid entry is
      the last frame it took. */
  lemma {:induction false} WalkZeroingReturnsNewFrame(s: PagedAddrSpace, levels: seq<Level>, p: PhysPageNum, vpn: VirtPageNum)
    requires Valid(s.frameAlloc) && !IsFree(s.frameAlloc, p)
    requires forall k :: 0 <= k < |levels| ==> levels[k] <= MAX_LEVEL
    requires |levels| > 0 && !IsValid(s.mem(p)[VpnIndex(vpn, levels[0])])
    ensures EndsOnLastFrame(WalkZeroing(s, levels, p, vpn))
    decreases |levels|
  {
    if |levels| == 1 {
      WalkZeroingLastLevel(s, levels, p, vpn);
    } else {
      WalkZeroingStepNew(s, levels, p, vpn);
      var r1 := FrameAlloc.TryNewIn(s.frameAlloc);
      if r1.Ok? {
        var s2 := InstallZeroedTable(s, p, VpnIndex(vpn, levels[0]), r1.value);
        WalkZeroingReturnsNewFrame(s2, levels[1..], r1.value.ppn, vpn);
      }
    }
  }

  /** As written, the first table a walk creates below a fresh root is the
      root's own frame: the root came from a clone of the allocator the
      space kept, and the next clone hands out the same page again. */
  lemma RootHandedOutAgain(a: StackFrameAllocator, mem: Memory, level: Level, vpn: VirtPageNum)
    requires Valid(a) && TryNewInAsWritten(a, mem).Ok? && level <= 2
    ensures var s := TryNewInAsWritten(a, mem).value;
      var s' := AllocGetTableAsWritten(s, level, vpn).1;
      |s'.frames| >= 1 && s'.frames[0].ppn == s.root.ppn
  {
    var s := TryNewInAsWritten(a, mem).value;
    var levels := VisitLevelsBefore(level);
    var idx := VpnIndex(vpn, levels[0]);
    var t := s.mem(s.root.ppn);
    assert !IsValid(t[idx]) by {
      TypeBits(t[idx]);
    }
    var b := FrameAlloc.TryNewIn(a).value;
    assert s.root == b;
    assert NewFrame(s, false) == (Ok(b), s);
    var s2 := s.(mem := Write(s.mem, s.root.ppn, SetEntry(t, idx, SetTable(t[idx], b.ppn))), frames := s.frames + [b]);
    assert s2.frames == [b];
    var res := Walk(s2, levels[1..], b.ppn, vpn, false);
    assert Walk(s, levels, s.root.ppn, vpn, false) == res;
    assert AllocGetTableAsWritten(s, level, vpn) == res;
    assert res.1.frames[..1] == [b];
    PrefixHead(res.1.frames, b);
  }

  lemma PrefixHead<T>(xs: seq<T>, x: T)
    requires |xs| >= 1 && xs[..1] == [x]
    ensures xs[0] == x
  {
    assert xs[..1][0] == xs[0];
  }

  // `allocate_map`.

  /** One page-table write of `allocate_map`: the level, the virtual page
      whose entry is written, and the page the entry points at. */
  datatype Target = Target(level: Level, vpn: VirtPageNum, ppn: PhysPageNum)

  /** The target for one point of a solver chunk.  The point's virtual page
      number goes through `VirtAddr::from` and the 12-bit shift as if it
      were a byte address, and the same number, not the physical one, goes
      through `PhysAddr::from` for the frame. */
  function PointTarget(level: Level, pt: MapperSolver.Pair): (t: Target)
    requires pt.v < WORD
    ensures t.level == level
    ensures t.vpn.n == t.ppn.n == (pt.v % ADDR_LIMIT) / FRAME_SIZE
  {
    Target(level, VpnOf(VirtFrom(pt.v)), PpnOf(PhysFrom(pt.v)))
  }

  /** The target for one point as evidently intended: the point's two
      components are the virtual and the physical page number. */
  function IntendedTarget(level: Level, pt: MapperSolver.Pair): (t: Target)
    requires pt.v < WORD && pt.p < WORD
    ensures t.level == level
  {
    Target(level, VirtPageNum(pt.v), PhysPageNum(pt.p))
  }

  /** The target of a point as written, or as intended. */
  function TargetOf(asWritten: bool, level: Level, pt: MapperSolver.Pair): (t: Target)
    requires pt.v < WORD && pt.p < WORD
    ensures t.level == level
  {
    if asWritten then PointTarget(level, pt) else IntendedTarget(level, pt)
  }

  /** The targets of one chunk, one per step of its level's span. */
  function ChunkTargets(c: MapperSolver.Chunk, d: nat, asWritten: bool): (r: seq<Target>)
    requires MapperSolver.ChunkOk(c, d) && c.hi.v < WORD && c.hi.p < WORD
    ensures forall k :: 0 <= k < |r| ==> r[k].level == c.level
  {
    MapperSolver.ChunkStepsEvenly(c, d);
    var pts := MapperSolver.StepBy(c.lo, c.hi, MapperSolver.Span(c.level));
    seq(|pts|, k requires 0 <= k < |pts| => TargetOf(asWritten, c.level, pts[k]))
  }

  /** `ChunkTargets` writes one entry per span: `(hi - lo) / span` of
      them, the `k`-th for the point `k` spans past the chunk's start. */
  lemma ChunkTargetsPoints(c: MapperSolver.Chunk, d: nat, asWritten: bool)
    requires MapperSolver.ChunkOk(c, d) && c.hi.v < WORD && c.hi.p < WORD
    ensures var a := MapperSolver.Span(c.level);
      var r := ChunkTargets(c, d, asWritten);
      && |r| * a == c.hi.v - c.lo.v
      && forall k :: 0 <= k < |r| ==>
           && c.lo.p + k * a <= c.lo.v + k * a < c.hi.v
           && r[k] == TargetOf(asWritten, c.level, MapperSolver.Pair(c.lo.v + k * a, c.lo.p + k * a))
  {
    var a := MapperSolver.Span(c.level);
    MapperSolver.ChunkStepsEvenly(c, d);
    var pts := MapperSolver.StepBy(c.lo, c.hi, a);
    var r := ChunkTargets(c, d, asWritten);
    MapperSolver.StepByPoints(c.lo, c.hi, a);
    forall k | 0 <= k < |r|
      ensures c.lo.p + k * a <= c.lo.v + k * a < c.hi.v &&
        r[k] == TargetOf(asWritten, c.level, MapperSolver.Pair(c.lo.v + k * a, c.lo.p + k * a))
    {
      assert pts[k] == MapperSolver.Pair(c.lo.v + k * a, c.lo.p + k * a);
      assert pts[k].v < c.hi.v;
    }
  }

  /** The targets of every chunk, in the solver's order. */
  function AllTargets(cs: seq<MapperSolver.Chunk>, d: nat, asWritten: bool): (r: seq<Target>)
    requires forall j :: 0 <= j < |cs| ==> MapperSolver.ChunkOk(cs[j], d) && cs[j].hi.v < WORD && cs[j].hi.p < WORD
    requires forall j :: 0 <= j < |cs| ==> 1 <= cs[j].level <= 2
    ensures forall k :: 0 <= k < |r| ==> 1 <= r[k].level <= 2
  {
    if |cs| == 0 then [] else ChunkTargets(cs[0], d, asWritten) + AllTargets(cs[1..], d, asWritten)
  }

  /** With the intended conversion a chunk's targets are its own pages:
      the `k`-th target maps the page `k` spans past the chunk's start to
      the page the requested distance below it, so no two targets of a
      chunk share a virtual page. */
  lemma IntendedTargetsKeepDistance(c: MapperSolver.Chunk, d: nat)
    requires MapperSolver.ChunkOk(c, d) && c.hi.v < WORD && c.hi.p < WORD
    ensures var a := MapperSolver.Span(c.level);
      var r := ChunkTargets(c, d, false);
      && (forall k :: 0 <= k < |r| ==> r[k].vpn.n == c.lo.v + k * a && r[k].ppn.n + d == r[k].vpn.n)
      && (forall k, j :: 0 <= k < j < |r| ==> r[k].vpn.n < r[j].vpn.n)
  {
    var a := MapperSolver.Span(c.level);
    var r := ChunkTargets(c, d, false);
    ChunkTargetsPoints(c, d, false);
    forall k, j | 0 <= k < j < |r|
      ensures r[k].vpn.n < r[j].vpn.n
    {
      MulSign(a, j - k);
      assert a * (j - k) == j * a - k * a;
    }
  }

  /** Descriptor facts about the entry `set_frame` leaves for a target. */
  predicate MapsTo(e: Entry, t: Target, flags: u64) {
    && IsValid(e)
    && (IsBlock(e) <==> t.level <= 2)
    && (t.ppn.n < Pow2(PPN_BITS) && FlagsOnly(flags) ==> GetPpn(e) == t.ppn)
  }

  lemma SetFrameMapsTo(e: Entry, t: Target, flags: u64)
    requires 1 <= t.level <= MAX_LEVEL && (t.level <= 2 ==> !TestBit(flags, 1))
    ensures MapsTo(SetFrameAt(e, t.ppn, t.level, flags), t, flags)
  {
    if t.ppn.n < Pow2(PPN_BITS) {
      GetPpnRoundTrip(e, t.ppn, t.level, flags);
    }
  }

  /** One target: find or create the table at the target's level and write
      the frame descriptor at the target's index there. */
  function MapOne(s: PagedAddrSpace, t: Target, flags: u64): (res: (Result<(), FrameAllocError>, PagedAddrSpace))
    requires Owns(s) && 1 <= t.level <= MAX_LEVEL && (t.level <= 2 ==> !TestBit(flags, 1))
    ensures Owns(res.1) && res.1.root == s.root
    ensures |s.frames| <= |res.1.frames| && res.1.frames[..|s.frames|] == s.frames
    ensures res.0.Err? ==> AllocateFrame(res.1.frameAlloc).0.Err?
  {
    var (r, s1) := AllocGetTable(s, t.level, t.vpn);
    match r
    case Err(e) => (Err(e), s1)
    case Ok(q) =>
      var table := s1.mem(q);
      var idx := VpnIndex(t.vpn, t.level);
      var e := SetFrameAt(table[idx], t.ppn, t.level, flags);
      (Ok(()), s1.(mem := Write(s1.mem, q, SetEntry(table, idx, e))))
  }

  /** Once the walk reaches the target's table, `map_one` succeeds and the
      target's entry in that table maps the target. */
  lemma MapOneWrites(s: PagedAddrSpace, t: Target, flags: u64)
    requires Owns(s) && 1 <= t.level <= MAX_LEVEL && (t.level <= 2 ==> !TestBit(flags, 1))
    ensures var (r, s1) := AllocGetTable(s, t.level, t.vpn);
      r.Ok? ==> MapOne(s, t, flags).0.Ok? && MapsTo(MapOne(s, t, flags).1.mem(r.value)[VpnIndex(t.vpn, t.level)], t, flags)
  {
    var (r, s1) := AllocGetTable(s, t.level, t.vpn);
    if r.Ok? {
      var table := s1.mem(r.value);
      SetFrameMapsTo(table[VpnIndex(t.vpn, t.level)], t, flags);
    }
  }

  /** The targets in order; the first allocation error stops the loop. */
  function MapTargets(s: PagedAddrSpace, ts: seq<Target>, flags: u64): (res: (Result<(), FrameAllocError>, PagedAddrSpace))
    requires Owns(s) && !TestBit(flags, 1)
    requires forall k :: 0 <= k < |ts| ==> 1 <= ts[k].level <= MAX_LEVEL
    ensures Owns(res.1) && res.1.root == s.root
    ensures |s.frames| <= |res.1.frames| && res.1.frames[..|s.frames|] == s.frames
    ensures res.0.Err? ==> AllocateFrame(res.1.frameAlloc).0.Err?
    decreases |ts|
  {
    if |ts| == 0 then (Ok(()), s)
    else
      var (r, s1) := MapOne(s, ts[0], flags);
      match r
      case Err(e) => (Err(e), s1)
      case Ok(_) =>
        var res := MapTargets(s1, ts[1..], flags);
        assert res.1.frames[..|s.frames|] == res.1.frames[..|s1.frames|][..|s.frames|];
        res
  }

  /** `allocate_map(vpn, ppn, n, flags)` as evidently intended: every
      target of every solver chunk, in order, with each point's own page
      numbers, walking with the shared allocator.  `set_frame` is
      unimplemented at level 0 and needs block flags below level 3, so the
      request must avoid level-0 chunks and the flags must leave the TABLE
      bit clear. */
  function AllocateMap(s: PagedAddrSpace, vpn: VirtPageNum, ppn: PhysPageNum, n: nat, flags: u64)
    : (res: (Result<(), FrameAllocError>, PagedAddrSpace))
    requires Owns(s) && ppn.n <= vpn.n && vpn.n + n < WORD && !TestBit(flags, 1)
    requires NoLeafChunks(vpn, ppn, n)
    ensures Owns(res.1) && res.1.root == s.root
    ensures |s.frames| <= |res.1.frames| && res.1.frames[..|s.frames|] == s.frames
    ensures res.0.Err? ==> AllocateFrame(res.1.frameAlloc).0.Err?
  {
    var cs := MapperSolver.Solve(vpn, ppn, n);
    SolveTargetsReady(vpn, ppn, n, cs);
    MapTargets(s, AllTargets(cs, vpn.n - ppn.n, false), flags)
  }

  /** `map_one` as written: the walk allocates from clones of the space's
      allocator, which never moves on. */
  function MapOneAsWritten(s: PagedAddrSpace, t: Target, flags: u64): (res: (Result<(), FrameAllocError>, PagedAddrSpace))
    requires Valid(s.frameAlloc) && 1 <= t.level <= MAX_LEVEL && (t.level <= 2 ==> !TestBit(flags, 1))
    ensures res.1.frameAlloc == s.frameAlloc && res.1.root == s.root
    ensures SameNewFrames(s, res.1) && res.1.frames[..|s.frames|] == s.frames
    ensures res.0.Err? ==> AllocateFrame(s.frameAlloc).0.Err?
  {
    var (r, s1) := AllocGetTableAsWritten(s, t.level, t.vpn);
    match r
    case Err(e) => (Err(e), s1)
    case Ok(q) =>
      var table := s1.mem(q);
      var idx := VpnIndex(t.vpn, t.level);
      var e := SetFrameAt(table[idx], t.ppn, t.level, flags);
      (Ok(()), s1.(mem := Write(s1.mem, q, SetEntry(table, idx, e))))
  }

  /** The loop of `allocate_map` as written: the space's allocator is the
      same after any number of targets, every table frame recorded is the
      one box it hands out first, and the loop stops only when that
      allocator is exhausted. */
  function MapTargetsAsWritten(s: PagedAddrSpace, ts: seq<Target>, flags: u64): (res: (Result<(), FrameAllocError>, PagedAddrSpace))
    requires Valid(s.frameAlloc) && !TestBit(flags, 1)
    requires forall k :: 0 <= k < |ts| ==> 1 <= ts[k].level <= MAX_LEVEL
    ensures res.1.frameAlloc == s.frameAlloc && res.1.root == s.root
    ensures SameNewFrames(s, res.1) && res.1.frames[..|s.frames|] == s.frames
    ensures res.0.Err? ==> AllocateFrame(s.frameAlloc).0.Err?
    decreases |ts|
  {
    if |ts| == 0 then (Ok(()), s)
    else
      var (r, s1) := MapOneAsWritten(s, ts[0], flags);
      match r
      case Err(e) => (Err(e), s1)
      case Ok(_) =>
        var res := MapTargetsAsWritten(s1, ts[1..], flags);
        assert res.1.frames[..|s.frames|] == res.1.frames[..|s1.frames|][..|s.frames|];
        SameNewFramesTrans(s, s1, res.1);
        res
  }

  /** `allocate_map(vpn, ppn, n, flags)` as written: both page numbers of a
      target come from the point's virtual component through the address
      conversions, and tables come from clones of the allocator. */
  function AllocateMapAsWritten(s: PagedAddrSpace, vpn: VirtPageNum, ppn: PhysPageNum, n: nat, flags: u64)
    : (res: (Result<(), FrameAllocError>, PagedAddrSpace))
    requires Valid(s.frameAlloc) && ppn.n <= vpn.n && vpn.n + n < WORD && !TestBit(flags, 1)
    requires NoLeafChunks(vpn, ppn, n)
    ensures res.1.frameAlloc == s.frameAlloc && res.1.root == s.root
    ensures SameNewFrames(s, res.1) && res.1.frames[..|s.frames|] == s.frames
    ensures res.0.Err? ==> AllocateFrame(s.frameAlloc).0.Err?
  {
    var cs := MapperSolver.Solve(vpn, ppn, n);
    SolveTargetsReady(vpn, ppn, n, cs);
    MapTargetsAsWritten(s, AllTargets(cs, vpn.n - ppn.n, true), flags)
  }

  /** As written, on a space fresh from `try_new_in` every table frame
      `allocate_map` creates is the root's own page. */
  lemma AllocateMapReusesRoot(a: StackFrameAllocator, mem: Memory, vpn: VirtPageNum, ppn: PhysPageNum, n: nat, flags: u64)
    requires Valid(a) && TryNewInAsWritten(a, mem).Ok?
    requires ppn.n <= vpn.n && vpn.n + n < WORD && !TestBit(flags, 1) && NoLeafChunks(vpn, ppn, n)
    ensures var s := TryNewInAsWritten(a, mem).value;
      var s' := AllocateMapAsWritten(s, vpn, ppn, n, flags).1;
      forall k :: 0 <= k < |s'.frames| ==> s'.frames[k].ppn == s.root.ppn
  {
    var s := TryNewInAsWritten(a, mem).value;
    var s' := AllocateMapAsWritten(s, vpn, ppn, n, flags).1;
    assert FrameAlloc.TryNewIn(a) == Ok(s.root);
    forall k | 0 <= k < |s'.frames|
      ensures s'.frames[k].ppn == s.root.ppn
    {
      assert FrameAlloc.TryNewIn(s.frameAlloc) == Ok(s'.frames[k]);
    }
  }

  /** The solver uses no level-0 chunk for this request, as with the
      driver's request. */
  predicate NoLeafChunks(vpn: VirtPageNum, ppn: PhysPageNum, n: nat)
    requires ppn.n <= vpn.n && vpn.n + n < WORD
  {
    var cs := MapperSolver.Solve(vpn, ppn, n);
    forall k :: 0 <= k < |cs| ==> cs[k].level >= 1
  }

  /** The solver's chunks are what `AllTargets` accepts when none of them
      is at level 0. */
  lemma SolveTargetsReady(vpn: VirtPageNum, ppn: PhysPageNum, n: nat, cs: seq<MapperSolver.Chunk>)
    requires ppn.n <= vpn.n && vpn.n + n < WORD && cs == MapperSolver.Solve(vpn, ppn, n)
    requires NoLeafChunks(vpn, ppn, n)
    ensures forall j :: 0 <= j < |cs| ==> MapperSolver.ChunkOk(cs[j], vpn.n - ppn.n) && cs[j].hi.v < WORD && cs[j].hi.p < WORD
    ensures forall j :: 0 <= j < |cs| ==> 1 <= cs[j].level <= 2
  {
    MapperSolver.SolveCorrect(vpn, ppn, n);
    MapperSolver.SolveInside(vpn, ppn, n);
    forall j | 0 <= j < |cs|
      ensures MapperSolver.ChunkOk(cs[j], vpn.n - ppn.n) && cs[j].hi.v < WORD && cs[j].hi.p < WORD
    {
      assert MapperSolver.ChunkOk(cs[j], vpn.n - ppn.n);
      assert cs[j].hi.v <= vpn.n + n;
    }
  }

  /** The driver's request shows the conversion at work: the first two
      level-1 points, 512 pages apart, write the entry of the same virtual
      page 0.  And a point whose physical page lies below its virtual one
      maps a frame derived from the virtual page, not the physical page
      asked for. */
  lemma DriverPointsShareAPage()
    ensures PointTarget(1, MapperSolver.Pair(0, 0)).vpn == PointTarget(1, MapperSolver.Pair(512, 512)).vpn == VirtPageNum(0)
    ensures PointTarget(1, MapperSolver.Pair(0x4_0000, 0x200)).ppn == PhysPageNum(0x40)
    ensures IntendedTarget(1, MapperSolver.Pair(0x4_0000, 0x200)).ppn == PhysPageNum(0x200)
  {}
}
