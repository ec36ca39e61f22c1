/** The region tracker of addr_space.rs: an address space records the
    regions it has mapped, and hands each one to its page table first.
    The page table is any type with a `map` operation, passed in as a
    function. */
module AddrSpace {
  import opened Bits
  import Frame

  /** A mapped region: start, length, frames and descriptor flags. */
  datatype VmRegion = VmRegion(vaddr: u64, size: nat, frames: seq<Frame.Frame>, flag: u64)

  datatype VmSpace<P> = VmSpace(regions: seq<VmRegion>, pageTable: P)

  /** `map_range`: build the region, let the page table map it, then
      append it to the regions.  No overlap with earlier regions is
      checked. */
  function MapRange<P>(s: VmSpace<P>, va: u64, len: nat, frames: seq<Frame.Frame>, flag: u64, mapTable: (P, VmRegion) -> P)
    : (r: VmSpace<P>)
    ensures |r.regions| == |s.regions| + 1 && r.regions[..|s.regions|] == s.regions
    ensures r.regions[|s.regions|] == VmRegion(va, len, frames, flag)
    ensures r.pageTable == mapTable(s.pageTable, r.regions[|s.regions|])
  {
    var region := VmRegion(va, len, frames, flag);
    VmSpace(s.regions + [region], mapTable(s.pageTable, region))
  }

  /** Mapping the same range twice records it twice: nothing rejects an
      overlap. */
  lemma OverlapNotRejected<P>(s: VmSpace<P>, va: u64, len: nat, frames: seq<Frame.Frame>, flag: u64, mapTable: (P, VmRegion) -> P)
    ensures var r := MapRange(MapRange(s, va, len, frames, flag, mapTable), va, len, frames, flag, mapTable);
      |r.regions| == |s.regions| + 2 && r.regions[|s.regions|] == r.regions[|s.regions| + 1]
  {}

  /** One `map_range` call's arguments. */
  datatype Request = Request(va: u64, len: nat, frames: seq<Frame.Frame>, flag: u64)

  function RegionOf(q: Request): VmRegion {
    VmRegion(q.va, q.len, q.frames, q.flag)
  }

  /** The regions a sequence of requests describes, in order. */
  function RegionsOf(reqs: seq<Request>): (rs: seq<VmRegion>)
    ensures |rs| == |reqs| && forall i :: 0 <= i < |reqs| ==> rs[i] == RegionOf(reqs[i])
  {
    seq(|reqs|, i requires 0 <= i < |reqs| => RegionOf(reqs[i]))
  }

  /** A sequence of `map_range` calls, in order. */
  function MapAll<P>(s: VmSpace<P>, reqs: seq<Request>, mapTable: (P, VmRegion) -> P): VmSpace<P>
    decreases |reqs|
  {
    if |reqs| == 0 then s
    else MapAll(MapRange(s, reqs[0].va, reqs[0].len, reqs[0].frames, reqs[0].flag, mapTable), reqs[1..], mapTable)
  }

  /** The page table after handing it the given regions one by one. */
  function Fold<P>(p: P, rs: seq<VmRegion>, mapTable: (P, VmRegion) -> P): P
    decreases |rs|
  {
    if |rs| == 0 then p else Fold(mapTable(p, rs[0]), rs[1..], mapTable)
  }

  /** The region list is a log: after any sequence of `map_range` calls it
      holds the earlier regions followed by one region per call, in call
      order, and the page table has seen exactly those regions in that
      order. */
  lemma {:induction false} MapAllRecords<P>(s: VmSpace<P>, reqs: seq<Request>, mapTable: (P, VmRegion) -> P)
    ensures MapAll(s, reqs, mapTable).regions == s.regions + RegionsOf(reqs)
    ensures MapAll(s, reqs, mapTable).pageTable == Fold(s.pageTable, RegionsOf(reqs), mapTable)
    decreases |reqs|
  {
    if |reqs| > 0 {
      var q := reqs[0];
      var s1 := MapRange(s, q.va, q.len, q.frames, q.flag, mapTable);
      MapAllRecords(s1, reqs[1..], mapTable);
      assert RegionsOf(reqs) == [RegionOf(q)] + RegionsOf(reqs[1..]);
      assert s1.regions == s.regions + [RegionOf(q)];
    }
  }

  /** `get_frames`: the region's own frame list. */
  function GetFrames(r: VmRegion): (fs: seq<Frame.Frame>)
    ensures fs == r.frames
  {
    r.frames
  }

  /** `get_frames` hands out `&mut Vec<Frame>`: whatever list the caller
      leaves behind through it becomes the region's, and nothing else of
      the region changes. */
  function WithFrames(r: VmRegion, fs: seq<Frame.Frame>): (r': VmRegion)
    ensures GetFrames(r') == fs
    ensures r'.vaddr == r.vaddr && r'.size == r.size && r'.flag == r.flag
  {
    r.(frames := fs)
  }

  /** The frame list behaves as a field reached through `get_frames`:
      writing back what was read changes nothing, of two writes the last
      one wins, and frames and flag are independent. */
  lemma FramesAccessLaws(r: VmRegion, fs: seq<Frame.Frame>, gs: seq<Frame.Frame>, nf: u64)
    ensures WithFrames(r, GetFrames(r)) == r
    ensures WithFrames(WithFrames(r, fs), gs) == WithFrames(r, gs)
    ensures ReplaceFlag(WithFrames(r, fs), nf) == WithFrames(ReplaceFlag(r, nf), fs)
  {}

  /** `replace_flag`: a new flag and nothing else. */
  function ReplaceFlag(r: VmRegion, nf: u64): (r': VmRegion)
    ensures r'.flag == nf
    ensures r'.vaddr == r.vaddr && r'.size == r.size && GetFrames(r') == GetFrames(r)
  {
    r.(flag := nf)
  }

  /** Replacing a flag twice keeps the last one; replacing it with the
      flag it already has changes nothing. */
  lemma ReplaceFlagLastWins(r: VmRegion, a: u64, b: u64)
    ensures ReplaceFlag(ReplaceFlag(r, a), b) == ReplaceFlag(r, b)
    ensures ReplaceFlag(r, r.flag) == r
  {}
}
