/** Size-typed physical frames and frame ranges (mm/frame.rs).  A frame is
    known by its start address, which only `containing_address` sets, so it is
    always aligned to the frame's size. */
module PhysFrames {
  import opened Bits
  import opened Wrappers
  import Align
  import opened Address
  import opened PageSize

  datatype PhysFrame = PhysFrame(size: Size, start: PhysAddr)

  /** What `containing_address` guarantees of every frame. */
  predicate WellFormed(f: PhysFrame) {
    f.start.raw % Bytes(f.size) == 0
  }

  /** `containing_address`: the start address rounded down to the size. */
  function ContainingAddress(s: Size, a: PhysAddr): (r: PhysFrame)
    ensures r.size == s && WellFormed(r)
    ensures r.start.raw <= a.raw < r.start.raw + Bytes(s)
  {
    BytesPowerOfTwo(s);
    PhysFrame(s, PhysFloor(a, Bytes(s)))
  }

  /** `containing_address` leaves an aligned address where it is, and no other. */
  lemma ContainingAligned(s: Size, a: PhysAddr)
    ensures ContainingAddress(s, a).start == a <==> a.raw % Bytes(s) == 0
  {
    BytesPowerOfTwo(s);
    if a.raw % Bytes(s) == 0 {
      Align.FloorGreatest(a.raw, Bytes(s), a.raw);
    }
  }

  /** `from_start_address`: only an aligned address starts a frame. */
  function FromStartAddress(s: Size, a: PhysAddr): (r: Result<PhysFrame, ()>)
    ensures r.Ok? <==> a.raw % Bytes(s) == 0
    ensures r.Ok? ==> r.value.start == a && r.value.size == s
  {
    BytesPowerOfTwo(s);
    AlignedIsMultiple(a.raw, Bytes(s));
    ContainingAligned(s, a);
    if !Aligned(a.raw, Bytes(s)) then Err(()) else Ok(ContainingAddress(s, a))
  }

  /** A frame's start address gives the frame back. */
  lemma FromStartAddressRoundTrip(f: PhysFrame)
    requires WellFormed(f)
    ensures FromStartAddress(f.size, f.start) == Ok(f)
  {}

  lemma MultipleStep(a: nat, n: nat, b: nat)
    requires b > 0 && a % b == 0
    ensures (a + n * b) % b == 0
  {
    DivModUnique(a + n * b, b, a / b + n, 0);
  }

  /** `frame + n`: the frame `n` sizes further on.  The byte offset is a
      plain multiplication and addition, then the address mask applies. */
  function AddFrames(f: PhysFrame, n: u64): (r: PhysFrame)
    requires n * Bytes(f.size) < WORD && f.start.raw + n * Bytes(f.size) < WORD
    ensures r.size == f.size && WellFormed(r)
    ensures WellFormed(f) && f.start.raw + n * Bytes(f.size) < ADDR_LIMIT ==>
      r.start.raw == f.start.raw + n * Bytes(f.size)
  {
    var m := n * Bytes(f.size);
    var a := PhysAdd(f.start, m);
    if WellFormed(f) && f.start.raw + m < ADDR_LIMIT then
      AddAlignedFrames(f, n, m, a);
      ContainingAddress(f.size, a)
    else
      ContainingAddress(f.size, a)
  }

  lemma AddAlignedFrames(f: PhysFrame, n: nat, m: nat, a: PhysAddr)
    requires WellFormed(f) && m == n * Bytes(f.size) && f.start.raw + m < ADDR_LIMIT
    requires a.raw == (f.start.raw + m) % ADDR_LIMIT
    ensures ContainingAddress(f.size, a).start.raw == f.start.raw + m
  {
    DivModUnique(f.start.raw + m, ADDR_LIMIT, 0, f.start.raw + m);
    MultipleStep(f.start.raw, n, Bytes(f.size));
    ContainingAligned(f.size, a);
  }

  /** Beyond the 48-bit window the frame address wraps to the bottom. */
  lemma AddFramesWraps()
    ensures AddFrames(PhysFrame(Size4KiB, PhysAddr(ADDR_LIMIT - 0x1000)), 1).start.raw == 0
  {
    ContainingAligned(Size4KiB, PhysAddr(0));
  }

  /** `PhysFrameRange`: frames from `start` up to, not including, `end`. */
  datatype PhysFrameRange = PhysFrameRange(start: PhysFrame, end: PhysFrame)

  /** Both ends are frames of one size. */
  predicate RangeWellFormed(r: PhysFrameRange) {
    WellFormed(r.start) && WellFormed(r.end) && r.start.size == r.end.size
  }

  /** The derived ordering compares start addresses. */
  predicate Less(a: PhysFrame, b: PhysFrame) {
    a.start.raw < b.start.raw
  }

  predicate IsEmpty(r: PhysFrameRange) {
    !Less(r.start, r.end)
  }

  /** `range_of(begin, end)`: from the frame holding `begin` to the frame after
      the one holding `end - 1`.  The subtraction is checked; the `+ 1` must not
      overflow the word. */
  function RangeOf(s: Size, b: PhysAddr, e: PhysAddr): (r: PhysFrameRange)
    requires e.raw >= 1
    requires ContainingAddress(s, PhysSub(e, 1)).start.raw + Bytes(s) < WORD
    ensures RangeWellFormed(r) && r.start.size == s
    ensures r.start == ContainingAddress(s, b)
    ensures e.raw <= ADDR_LIMIT - Bytes(s) ==>
      e.raw <= r.end.start.raw < e.raw + Bytes(s)
  {
    var last := ContainingAddress(s, PhysSub(e, 1));
    if e.raw <= ADDR_LIMIT - Bytes(s) then
      RangeOfEnd(s, e);
      PhysFrameRange(ContainingAddress(s, b), AddFrames(last, 1))
    else
      PhysFrameRange(ContainingAddress(s, b), AddFrames(last, 1))
  }

  lemma RangeOfEnd(s: Size, e: PhysAddr)
    requires 1 <= e.raw <= ADDR_LIMIT - Bytes(s)
    ensures var last := ContainingAddress(s, PhysSub(e, 1));
      last.start.raw + Bytes(s) < ADDR_LIMIT &&
      e.raw <= AddFrames(last, 1).start.raw < e.raw + Bytes(s)
  {
    var p := PhysSub(e, 1);
    assert p.raw == e.raw - 1 by {
      DivModUnique(e.raw - 1, ADDR_LIMIT, 0, e.raw - 1);
    }
    var last := ContainingAddress(s, p);
    assert AddFrames(last, 1).start.raw == last.start.raw + Bytes(s);
  }

  /** An end address at the very top of the window makes the `+ 1` wrap, so
      the range comes out empty. */
  lemma RangeOfTopIsEmpty()
    ensures IsEmpty(RangeOf(Size4KiB, PhysAddr(0x1000), PhysAddr(ADDR_LIMIT)))
  {
    var p := PhysSub(PhysAddr(ADDR_LIMIT), 1);
    assert p.raw == ADDR_LIMIT - 1 by {
      DivModUnique(ADDR_LIMIT - 1, ADDR_LIMIT, 0, ADDR_LIMIT - 1);
    }
    TopFrame(p);
    AddFramesWraps();
  }

  lemma TopFrame(p: PhysAddr)
    requires p.raw == ADDR_LIMIT - 1
    ensures ContainingAddress(Size4KiB, p).start.raw == ADDR_LIMIT - 0x1000
  {
    var f := ContainingAddress(Size4KiB, p).start.raw;
    assert f % 0x1000 == 0 && ADDR_LIMIT - 1 - 0x1000 < f <= ADDR_LIMIT - 1;
    DivModUnique(ADDR_LIMIT - 0x1000, 0x1000, ADDR_LIMIT / 0x1000 - 1, 0);
    Align.MultipleGap(ADDR_LIMIT - 0x1000, f, 0x1000);
    Align.MultipleGap(f, ADDR_LIMIT - 0x1000, 0x1000);
  }

  /** One step of the range's iterator: yield the start frame and advance it
      by one frame. */
  function Next(r: PhysFrameRange): (res: (Option<PhysFrame>, PhysFrameRange))
    requires RangeWellFormed(r)
    ensures res.0.None? <==> IsEmpty(r)
    ensures res.0.None? ==> res.1 == r
    ensures res.0.Some? ==> res.0.value == r.start && RangeWellFormed(res.1) && res.1.end == r.end
    ensures res.0.Some? && r.end.start.raw < ADDR_LIMIT ==>
      res.1.start.start.raw == r.start.start.raw + Bytes(r.start.size) <= r.end.start.raw
  {
    if Less(r.start, r.end) then
      var b := Bytes(r.start.size);
      MultipleStep(r.start.start.raw, 1, b);
      Align.MultipleGap(r.start.start.raw + b, r.end.start.raw, b);
      (Some(r.start), PhysFrameRange(AddFrames(r.start, 1), r.end))
    else
      (None, r)
  }

  /** The frames the iterator yields, in order: consecutive frames from the
      start up to the end.  An end at or beyond the 48-bit window is excluded,
      because the masked increment would never reach it. */
  function Frames(r: PhysFrameRange): (fs: seq<PhysFrame>)
    requires RangeWellFormed(r) && r.end.start.raw < ADDR_LIMIT
    ensures IsEmpty(r) <==> |fs| == 0
    ensures !IsEmpty(r) ==> |fs| * Bytes(r.start.size) == r.end.start.raw - r.start.start.raw
    ensures forall i :: 0 <= i < |fs| ==>
      fs[i].size == r.start.size && fs[i].start.raw == r.start.start.raw + i * Bytes(r.start.size)
    decreases r.end.start.raw - r.start.start.raw
  {
    var (x, rest) := Next(r);
    if x.None? then []
    else
      var tail := Frames(rest);
      var b := Bytes(r.start.size);
      assert |[x.value] + tail| * b == r.end.start.raw - r.start.start.raw by {
        MulSucc(|tail|, b);
        if |tail| == 0 {
          assert rest.start.start.raw == r.end.start.raw;
        }
      }
      assert forall i :: 1 <= i <= |tail| ==> (i - 1) * b + b == i * b by {
        forall i | 1 <= i <= |tail| ensures (i - 1) * b + b == i * b {
          MulSucc(i - 1, b);
        }
      }
      [x.value] + tail
  }

  lemma MulSucc(n: nat, b: nat)
    ensures (n + 1) * b == n * b + b
  {}

  lemma DiffOfMultiples(a: nat, c: nat, b: nat)
    requires b > 0 && a % b == 0 && c % b == 0 && a <= c
    ensures (c - a) % b == 0 && (c - a) / b * b == c - a
  {
    DivModUnique(c - a, b, c / b - a / b, 0);
  }

  /** The number of `b`-sized steps from one multiple of `b` up to another. */
  lemma StepsBetween(a: nat, c: nat, b: nat) returns (i: nat)
    requires b > 0 && a % b == 0 && c % b == 0 && a <= c
    ensures i * b == c - a
  {
    DiffOfMultiples(a, c, b);
    i := (c - a) / b;
  }

  lemma MulLessCancel(i: nat, n: nat, b: nat)
    requires b > 0 && i * b < n * b
    ensures i < n
  {
    MulMonotone(n, i, b);
  }

  lemma MulMonotone(n: nat, i: nat, b: nat)
    ensures n <= i ==> n * b <= i * b
  {
    if n <= i {
      assert i * b == n * b + (i - n) * b;
    }
  }

  /** Every aligned address from a range's start up to its end starts one of
      the frames the range yields. */
  lemma FramesContains(r: PhysFrameRange, a: nat)
    requires RangeWellFormed(r) && r.end.start.raw < ADDR_LIMIT
    requires a % Bytes(r.start.size) == 0 && r.start.start.raw <= a < r.end.start.raw
    ensures PhysFrame(r.start.size, PhysAddr(a)) in Frames(r)
  {
    var fs := Frames(r);
    var sz := Bytes(r.start.size);
    var i := StepsBetween(r.start.start.raw, a, sz);
    assert i < |fs| by {
      MulLessCancel(i, |fs|, sz);
    }
    assert fs[i] == PhysFrame(r.start.size, PhysAddr(a));
  }

  /** Every frame a range yields lies below the range's end. */
  lemma FramesBelowEnd(r: PhysFrameRange, i: nat)
    requires RangeWellFormed(r) && r.end.start.raw < ADDR_LIMIT
    requires i < |Frames(r)|
    ensures r.start.start.raw <= Frames(r)[i].start.raw
    ensures Frames(r)[i].start.raw + Bytes(r.start.size) <= r.end.start.raw
  {
    var fs := Frames(r);
    var sz := Bytes(r.start.size);
    MulMonotone(0, i, sz);
    MulMonotone(i + 1, |fs|, sz);
    MulSucc(i, sz);
  }

  /** Every address in `[begin, end)` lies in a frame that `range_of` yields. */
  lemma RangeOfCovers(s: Size, b: PhysAddr, e: PhysAddr, x: PhysAddr)
    requires 1 <= e.raw <= ADDR_LIMIT - Bytes(s) && b.raw <= x.raw < e.raw
    ensures ContainingAddress(s, x) in Frames(RangeOf(s, b, e))
  {
    var r := RangeOf(s, b, e);
    var f := ContainingAddress(s, x);
    BytesPowerOfTwo(s);
    Align.FloorGreatest(x.raw, Bytes(s), r.start.start.raw);
    FramesContains(r, f.start.raw);
  }

  /** Every frame `range_of` yields overlaps `[begin, end)`. */
  lemma RangeOfTight(s: Size, b: PhysAddr, e: PhysAddr, i: nat)
    requires 1 <= e.raw <= ADDR_LIMIT - Bytes(s) && b.raw < e.raw
    requires i < |Frames(RangeOf(s, b, e))|
    ensures var f := Frames(RangeOf(s, b, e))[i];
      f.start.raw < e.raw && b.raw < f.start.raw + Bytes(s)
  {
    FramesBelowEnd(RangeOf(s, b, e), i);
  }
}
