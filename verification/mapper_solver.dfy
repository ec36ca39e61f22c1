/** The huge-page mapping solver of mm/page_space.rs.  Given a start virtual
    page, a start physical page and a page count, it picks the largest level
    whose span divides the virtual-physical distance and that the count
    reaches, maps a middle run at that level, and fills the head and tail
    with ever smaller runs at each lower level. */
module MapperSolver {
  import opened Bits
  import opened Wrappers
  import opened PageMode
  import opened Arm64PageMode
  import Align

  /** `Pair(vpn, ppn)`: a virtual and a physical page number moved together. */
  datatype Pair = Pair(v: nat, p: nat)

  /** One answer of the solver: a level and the pair range `lo..hi`. */
  datatype Chunk = Chunk(level: Level, lo: Pair, hi: Pair)

  /** Pages covered by one mapping at level `l`, as a plain number. */
  function Span(l: Level): (r: nat)
    requires l <= MAX_LEVEL
    ensures r > 0
  {
    match l
    case 0 => 1
    case 1 => 512
    case 2 => 0x4_0000
    case 3 => 0x800_0000
  }

  /** `Span` is `get_align` of the paging mode. */
  lemma SpanIsAlign(l: Level)
    requires l <= MAX_LEVEL
    ensures Span(l) == AlignForLevel(l).pages
  {}

  lemma SpanValues()
    ensures Span(0) == 1 && Span(1) == 512 && Span(2) == 0x4_0000 && Span(3) == 0x800_0000
  {}

  /** A multiple of a level's span is a multiple of every lower level's. */
  lemma SpanDivides(m: nat, j: Level, l: Level)
    requires l <= j <= MAX_LEVEL && m % Span(j) == 0
    ensures m % Span(l) == 0
  {
    SpanValues();
    var q := m / Span(j);
    assert m == Span(j) * q;
    if l == 0 {
    } else if j == l {
    } else if j == 2 {
      DivModUnique(m, 512, 512 * q, 0);
    } else if j == 3 && l == 1 {
      DivModUnique(m, 512, 0x4_0000 * q, 0);
    } else {
      DivModUnique(m, 0x4_0000, 512 * q, 0);
    }
  }

  // Rounding to a multiple, as the solver writes it.

  /** `a * ((x + a - 1) / a)`: the least multiple of `a` not below `x`. */
  function RoundUp(x: nat, a: nat): (r: nat)
    requires a > 0
    ensures x <= r < x + a && r % a == 0
  {
    var q := (x + a - 1) / a;
    DivModUnique(a * q, a, q, 0);
    a * q
  }

  /** `a * (x / a)`: the greatest multiple of `a` not above `x`. */
  function RoundDown(x: nat, a: nat): (r: nat)
    requires a > 0
    ensures r <= x < r + a && r % a == 0
  {
    var q := x / a;
    DivModUnique(a * q, a, q, 0);
    a * q
  }

  lemma RoundUpLeast(x: nat, a: nat, m: nat)
    requires a > 0 && m % a == 0 && x <= m
    ensures RoundUp(x, a) <= m
  {
    Align.MultipleGap(RoundUp(x, a), m, a);
  }

  lemma RoundDownGreatest(x: nat, a: nat, m: nat)
    requires a > 0 && m % a == 0 && m <= x
    ensures m <= RoundDown(x, a)
  {
    Align.MultipleGap(m, RoundDown(x, a), a);
  }

  lemma SumOfMultiples(m1: nat, m2: nat, a: nat)
    requires a > 0 && m1 % a == 0 && m2 % a == 0
    ensures (m1 + m2) % a == 0
  {
    DivModUnique(m1 + m2, a, m1 / a + m2 / a, 0);
  }

  /** Shifting by a multiple of `a` commutes with both roundings. */
  lemma RoundShift(x: nat, y: nat, d: nat, a: nat)
    requires a > 0 && d % a == 0 && y == x + d
    ensures RoundUp(x, a) + d == RoundUp(y, a)
    ensures RoundDown(x, a) + d == RoundDown(y, a)
  {
    var u, u' := RoundUp(x, a) + d, RoundUp(y, a);
    SumOfMultiples(RoundUp(x, a), d, a);
    Align.MultipleGap(u, u', a);
    Align.MultipleGap(u', u, a);
    var w, w' := RoundDown(x, a) + d, RoundDown(y, a);
    SumOfMultiples(RoundDown(x, a), d, a);
    Align.MultipleGap(w, w', a);
    Align.MultipleGap(w', w, a);
  }

  // Choosing the level.

  /** Level `l` fits when its span divides the distance `d` and the count
      `n` reaches it. */
  predicate Fits(l: Level, d: nat, n: nat)
    requires l <= MAX_LEVEL
  {
    d % Span(l) == 0 && Span(l) <= n
  }

  /** The index of the first level of `levels` that fits. */
  function FirstFit(levels: seq<Level>, d: nat, n: nat): (r: Option<nat>)
    requires forall k :: 0 <= k < |levels| ==> levels[k] <= MAX_LEVEL
    ensures r.Some? ==> r.value < |levels| && Fits(levels[r.value], d, n)
    ensures r.Some? ==> forall k :: 0 <= k < r.value ==> !Fits(levels[k], d, n)
    ensures r.None? ==> forall k :: 0 <= k < |levels| ==> !Fits(levels[k], d, n)
  {
    if |levels| == 0 then None
    else if Fits(levels[0], d, n) then Some(0)
    else match FirstFit(levels[1..], d, n)
      case None => None
      case Some(k) => Some(k + 1)
  }

  /** The outer loop over `visit_levels_until(0)`: the largest of levels 2,
      1, 0 that fits.  Level 0 always divides, so only an empty request
      selects nothing. */
  function SelectLevel(d: nat, n: nat): (r: Option<Level>)
    ensures r.None? <==> n == 0
    ensures r.Some? ==> r.value <= 2 && Fits(r.value, d, n)
    ensures r == Some(1) ==> !Fits(2, d, n)
    ensures r == Some(0) ==> !Fits(2, d, n) && !Fits(1, d, n)
  {
    var levels := VisitLevelsUntil(LEAF_LEVEL);
    var r := FirstFit(levels, d, n);
    SpanValues();
    assert n > 0 ==> Fits(levels[2], d, n);
    match r
    case None => None
    case Some(k) =>
      assert k == 2 ==> !Fits(levels[0], d, n) && !Fits(levels[1], d, n);
      Some(levels[k])
  }

  // Emitting the chunks.

  /** The four bounds the inner loop computes at one level: the virtual and
      physical starts rounded up (`ve`, `pe`) and ends rounded down (`vs`,
      `ps`). */
  datatype Bounds = Bounds(ve: nat, vs: nat, pe: nat, ps: nat)

  function BoundsAt(l: Level, vpn: nat, ppn: nat, n: nat): (b: Bounds)
    requires l <= MAX_LEVEL
    ensures vpn <= b.ve < vpn + Span(l) && b.vs <= vpn + n < b.vs + Span(l)
    ensures b.ve % Span(l) == 0 && b.vs % Span(l) == 0
  {
    var a := Span(l);
    Bounds(RoundUp(vpn, a), RoundDown(vpn + n, a), RoundUp(ppn, a), RoundDown(ppn + n, a))
  }

  /** The chunks one level of the inner loop pushes: with no previous
      level, the run between its own bounds; otherwise the head piece from
      its rounded-up start to the previous one and the tail piece from the
      previous rounded-down end to its own, each only when non-empty. */
  function Pieces(j: Level, b: Bounds, prev: Option<Bounds>): (r: seq<Chunk>)
    ensures |r| <= (if prev.None? then 1 else 2)
    ensures forall k :: 0 <= k < |r| ==> r[k].level == j
  {
    match prev
    case None =>
      if b.ve != b.vs then [Chunk(j, Pair(b.ve, b.pe), Pair(b.vs, b.ps))] else []
    case Some(q) =>
      (if b.ve != q.ve then [Chunk(j, Pair(b.ve, b.pe), Pair(q.ve, q.pe))] else []) +
      (if q.vs != b.vs then [Chunk(j, Pair(q.vs, q.ps), Pair(b.vs, b.ps))] else [])
  }

  /** The inner loop over `visit_levels_from(i)`, carrying the previous
      level's bounds from one level to the next. */
  function Emit(levels: seq<Level>, vpn: nat, ppn: nat, n: nat, prev: Option<Bounds>): (r: seq<Chunk>)
    requires forall k :: 0 <= k < |levels| ==> levels[k] <= MAX_LEVEL
    ensures |r| <= 2 * |levels| - (if prev.None? && |levels| > 0 then 1 else 0)
    decreases |levels|
  {
    if |levels| == 0 then []
    else
      var b := BoundsAt(levels[0], vpn, ppn, n);
      Pieces(levels[0], b, prev) + Emit(levels[1..], vpn, ppn, n, Some(b))
  }

  /** `MaperSolver::solve`.  The distance `vpn - ppn` is an unsigned
      subtraction that must not underflow, and the rounded ends `vpn + n`
      (and `vpn + span - 1`, which is smaller) must stay in a machine word. */
  function Solve(vpn: VirtPageNum, ppn: PhysPageNum, n: nat): (r: seq<Chunk>)
    requires ppn.n <= vpn.n && vpn.n + n < WORD
    ensures r == [] <==> n == 0
  {
    match SelectLevel(vpn.n - ppn.n, n)
    case None => []
    case Some(i) =>
      SolveNonEmpty(vpn.n, ppn.n, n, i);
      Emit(VisitLevelsFrom(i), vpn.n, ppn.n, n, None)
  }

  // What the answer covers.

  predicate InChunk(c: Chunk, x: nat) {
    c.lo.v <= x < c.hi.v
  }

  /** How many chunks map virtual page `x`. */
  function Cover(cs: seq<Chunk>, x: nat): (r: nat)
    ensures r <= |cs|
  {
    if |cs| == 0 then 0 else (if InChunk(cs[0], x) then 1 else 0) + Cover(cs[1..], x)
  }

  lemma {:induction false} CoverAppend(a: seq<Chunk>, b: seq<Chunk>, x: nat)
    ensures Cover(a + b, x) == Cover(a, x) + Cover(b, x)
  {
    if |a| == 0 {
      assert a + b == b;
    } else {
      assert (a + b)[0] == a[0];
      assert (a + b)[1..] == a[1..] + b;
      CoverAppend(a[1..], b, x);
    }
  }

  /** A chunk is well formed at distance `d`: non-empty, both ends aligned
      to its level's span, and the physical side `d` pages below the
      virtual side. */
  predicate ChunkOk(c: Chunk, d: nat) {
    c.level <= MAX_LEVEL &&
    c.lo.v < c.hi.v &&
    c.lo.v % Span(c.level) == 0 && c.hi.v % Span(c.level) == 0 &&
    c.lo.p + d == c.lo.v && c.hi.p + d == c.hi.v &&
    c.lo.p % Span(c.level) == 0 && c.hi.p % Span(c.level) == 0
  }

  /** Bounds whose physical side is `d` below the virtual side, all four
      aligned to `a`. */
  predicate InStep(b: Bounds, d: nat, a: nat)
    requires a > 0
  {
    b.pe + d == b.ve && b.ps + d == b.vs &&
    b.ve % a == 0 && b.vs % a == 0 && b.pe % a == 0 && b.ps % a == 0
  }

  lemma BoundsAtOk(l: Level, vpn: nat, ppn: nat, n: nat)
    requires l <= MAX_LEVEL && ppn <= vpn && (vpn - ppn) % Span(l) == 0
    ensures var b := BoundsAt(l, vpn, ppn, n);
      && InStep(b, vpn - ppn, Span(l))
      && (Span(l) <= n ==> b.ve <= b.vs)
  {
    var a := Span(l);
    var b := BoundsAt(l, vpn, ppn, n);
    assert b.pe + (vpn - ppn) == b.ve by {
      RoundShift(ppn, vpn, vpn - ppn, a);
    }
    assert b.ps + (vpn - ppn) == b.vs by {
      RoundShift(ppn + n, vpn + n, vpn - ppn, a);
    }
    if a <= n {
      assert b.ve <= b.vs by {
        RoundDownGreatest(vpn + n, a, RoundUp(vpn, a));
      }
    }
  }

  /** The first level's piece is the run between its bounds. */
  lemma FirstPiece(j: Level, b: Bounds, d: nat)
    requires j <= MAX_LEVEL && InStep(b, d, Span(j)) && b.ve <= b.vs
    ensures var r := Pieces(j, b, None);
      CoversGap(r, b.ve, b.vs, b.vs, b.vs) && AtLevel(r, d, j)
  {}

  /** A later level's pieces are the head `b.ve..q.ve` and the tail
      `q.vs..b.vs` between its bounds `b` and the previous bounds `q`. */
  lemma LaterPieces(j: Level, b: Bounds, q: Bounds, d: nat)
    requires j <= MAX_LEVEL && InStep(b, d, Span(j)) && InStep(q, d, Span(j))
    requires b.ve <= q.ve <= q.vs <= b.vs
    ensures var r := Pieces(j, b, Some(q));
      CoversGap(r, b.ve, q.ve, q.vs, b.vs) && AtLevel(r, d, j)
  {
    var head := if b.ve != q.ve then [Chunk(j, Pair(b.ve, b.pe), Pair(q.ve, q.pe))] else [];
    var tail := if q.vs != b.vs then [Chunk(j, Pair(q.vs, q.ps), Pair(b.vs, b.ps))] else [];
    assert Pieces(j, b, Some(q)) == head + tail;
    forall x: nat ensures Cover(head + tail, x) == if b.ve <= x < q.ve || q.vs <= x < b.vs then 1 else 0 {
      CoverAppend(head, tail, x);
    }
  }

  /** Joining a level's pieces to the rest of the loop adds up the cover
      and keeps the chunk shapes and the level order. */
  lemma Join(j: Level, here: seq<Chunk>, rest: seq<Chunk>, d: nat)
    requires AtLevel(here, d, j) && WellShaped(rest, d) && LevelsBelow(rest, j)
    ensures forall x: nat :: Cover(here + rest, x) == Cover(here, x) + Cover(rest, x)
    ensures WellShaped(here + rest, d) && LevelsAtMost(here + rest, j)
  {
    forall x: nat ensures Cover(here + rest, x) == Cover(here, x) + Cover(rest, x) {
      CoverAppend(here, rest, x);
    }
  }

  /** `r` maps every page of `lo..hi` exactly once and nothing else. */
  ghost predicate CoversOnce(r: seq<Chunk>, lo: nat, hi: nat) {
    forall x: nat :: Cover(r, x) == if lo <= x < hi then 1 else 0
  }

  /** `r` maps every page of `lo..h1` and of `h2..hi` exactly once and
      nothing else. */
  ghost predicate CoversGap(r: seq<Chunk>, lo: nat, h1: nat, h2: nat, hi: nat) {
    forall x: nat :: Cover(r, x) == if lo <= x < h1 || h2 <= x < hi then 1 else 0
  }

  /** Every chunk of `r` is well formed at distance `d`, and levels never
      increase along `r`. */
  predicate WellShaped(r: seq<Chunk>, d: nat) {
    && (forall k :: 0 <= k < |r| ==> ChunkOk(r[k], d))
    && (forall k1, k2 :: 0 <= k1 < k2 < |r| ==> r[k2].level <= r[k1].level)
  }

  /** No chunk of `r` is above level `l`. */
  predicate LevelsAtMost(r: seq<Chunk>, l: Level) {
    forall k :: 0 <= k < |r| ==> r[k].level <= l
  }

  /** Every chunk of `r` is well formed at distance `d` and at level `j`. */
  predicate AtLevel(r: seq<Chunk>, d: nat, j: Level) {
    forall k :: 0 <= k < |r| ==> ChunkOk(r[k], d) && r[k].level == j
  }

  /** Every chunk of `r` is below level `l`. */
  predicate LevelsBelow(r: seq<Chunk>, l: Level) {
    forall k :: 0 <= k < |r| ==> r[k].level < l
  }

  lemma CoversNonEmpty(r: seq<Chunk>, lo: nat, hi: nat)
    requires CoversOnce(r, lo, hi) && lo < hi
    ensures r != []
  {
    assert Cover(r, lo) == 1;
  }

  /** The levels below `j`, given level `j`'s own bounds `b`: they cover
      the head `vpn..b.ve` and the tail `b.vs..vpn+n` once each, with
      well-formed chunks below `j` in non-increasing level order. */
  lemma {:induction false} RestCovers(j: Level, vpn: nat, ppn: nat, n: nat, b: Bounds)
    requires j <= 2 && ppn <= vpn && (vpn - ppn) % Span(j) == 0
    requires InStep(b, vpn - ppn, Span(j)) && vpn <= b.ve <= b.vs <= vpn + n
    requires j == 0 ==> b.ve == vpn && b.vs == vpn + n
    ensures var rest := Emit(Descending(j, 0)[1..], vpn, ppn, n, Some(b));
      CoversGap(rest, vpn, b.ve, b.vs, vpn + n) && WellShaped(rest, vpn - ppn) && LevelsBelow(rest, j)
    decreases j, 0
  {
    if j == 0 {
      assert Descending(j, 0)[1..] == [];
    } else {
      assert Descending(j, 0)[1..] == Descending(j - 1, 0);
      assert (vpn - ppn) % Span(j - 1) == 0 && InStep(b, vpn - ppn, Span(j - 1)) by {
        SpanDivides(vpn - ppn, j, j - 1);
        SpanDivides(b.ve, j, j - 1);
        SpanDivides(b.vs, j, j - 1);
        SpanDivides(b.pe, j, j - 1);
        SpanDivides(b.ps, j, j - 1);
      }
      EmitLeftovers(j - 1, vpn, ppn, n, b);
    }
  }

  /** Level 0's bounds are the request's own ends, so nothing is left
      below it. */
  lemma LevelZeroLeavesNothing(vpn: nat, ppn: nat, n: nat)
    ensures BoundsAt(0, vpn, ppn, n).ve == vpn && BoundsAt(0, vpn, ppn, n).vs == vpn + n
  {
    SpanValues();
  }

  /** Adding up the cover of one level's pieces and of the levels below. */
  lemma GapsJoin(here: seq<Chunk>, rest: seq<Chunk>, lo: nat, e1: nat, h1: nat, h2: nat, e2: nat, hi: nat)
    requires lo <= e1 <= h1 <= h2 <= e2 <= hi
    requires forall x: nat :: Cover(here + rest, x) == Cover(here, x) + Cover(rest, x)
    requires CoversGap(here, e1, h1, h2, e2) && CoversGap(rest, lo, e1, e2, hi)
    ensures CoversGap(here + rest, lo, h1, h2, hi)
  {}

  /** One level's pieces followed by the levels below it. */
  lemma Assemble(j: Level, here: seq<Chunk>, rest: seq<Chunk>, d: nat, lo: nat, e1: nat, h1: nat, h2: nat, e2: nat, hi: nat)
    requires lo <= e1 <= h1 <= h2 <= e2 <= hi
    requires AtLevel(here, d, j) && CoversGap(here, e1, h1, h2, e2)
    requires WellShaped(rest, d) && LevelsBelow(rest, j) && CoversGap(rest, lo, e1, e2, hi)
    ensures CoversGap(here + rest, lo, h1, h2, hi) && WellShaped(here + rest, d) && LevelsAtMost(here + rest, j)
  {
    Join(j, here, rest, d);
    GapsJoin(here, rest, lo, e1, h1, h2, e2, hi);
  }

  /** The inner loop from level `j`: that level's pieces, then the levels
      below it given this level's bounds. */
  lemma EmitSplits(j: Level, vpn: nat, ppn: nat, n: nat, prev: Option<Bounds>)
    requires j <= 2
    ensures Emit(Descending(j, 0), vpn, ppn, n, prev) ==
      Pieces(j, BoundsAt(j, vpn, ppn, n), prev) +
      Emit(Descending(j, 0)[1..], vpn, ppn, n, Some(BoundsAt(j, vpn, ppn, n)))
  {}

  /** Level `j`'s bounds inside the previous level's bounds `q`. */
  lemma LeftoverBounds(j: Level, vpn: nat, ppn: nat, n: nat, q: Bounds)
    requires j <= 2 && ppn <= vpn && (vpn - ppn) % Span(j) == 0
    requires InStep(q, vpn - ppn, Span(j)) && vpn <= q.ve <= q.vs <= vpn + n
    ensures var b := BoundsAt(j, vpn, ppn, n);
      InStep(b, vpn - ppn, Span(j)) && vpn <= b.ve <= q.ve && q.vs <= b.vs <= vpn + n &&
      (j == 0 ==> b.ve == vpn && b.vs == vpn + n)
  {
    var b := BoundsAt(j, vpn, ppn, n);
    assert InStep(b, vpn - ppn, Span(j)) by {
      BoundsAtOk(j, vpn, ppn, n);
    }
    assert b.ve <= q.ve by {
      RoundUpLeast(vpn, Span(j), q.ve);
    }
    assert q.vs <= b.vs by {
      RoundDownGreatest(vpn + n, Span(j), q.vs);
    }
    assert j == 0 ==> b.ve == vpn && b.vs == vpn + n by {
      LevelZeroLeavesNothing(vpn, ppn, n);
    }
  }

  /** The levels after the first: given the previous level's bounds `q`,
      levels `j` down to 0 cover exactly the head `vpn..q.ve` and the tail
      `q.vs..vpn+n`, once each, with well-formed chunks no higher than `j`
      in non-increasing level order. */
  lemma {:induction false} EmitLeftovers(j: Level, vpn: nat, ppn: nat, n: nat, q: Bounds)
    requires j <= 2 && ppn <= vpn && (vpn - ppn) % Span(j) == 0
    requires InStep(q, vpn - ppn, Span(j)) && vpn <= q.ve <= q.vs <= vpn + n
    ensures var r := Emit(Descending(j, 0), vpn, ppn, n, Some(q));
      CoversGap(r, vpn, q.ve, q.vs, vpn + n) && WellShaped(r, vpn - ppn) && LevelsAtMost(r, j)
    decreases j, 1
  {
    var b := BoundsAt(j, vpn, ppn, n);
    LeftoverBounds(j, vpn, ppn, n, q);
    EmitSplits(j, vpn, ppn, n, Some(q));
    LaterPieces(j, b, q, vpn - ppn);
    RestCovers(j, vpn, ppn, n, b);
    Assemble(j, Pieces(j, b, Some(q)), Emit(Descending(j, 0)[1..], vpn, ppn, n, Some(b)), vpn - ppn,
      vpn, b.ve, q.ve, q.vs, b.vs, vpn + n);
  }

  /** The whole inner loop from the selected level `i`: it covers the
      request once, with well-formed chunks in non-increasing level order. */
  lemma EmitFromSelected(i: Level, v: nat, p: nat, n: nat)
    requires i <= 2 && p <= v && Fits(i, v - p, n)
    ensures var r := Emit(Descending(i, 0), v, p, n, None);
      CoversOnce(r, v, v + n) && WellShaped(r, v - p) && LevelsAtMost(r, i) && |r| <= 2 * i + 1
  {
    var b := BoundsAt(i, v, p, n);
    SelectedBounds(i, v, p, n);
    EmitSplits(i, v, p, n, None);
    FirstPiece(i, b, v - p);
    RestCovers(i, v, p, n, b);
    var r := Emit(Descending(i, 0), v, p, n, None);
    Assemble(i, Pieces(i, b, None), Emit(Descending(i, 0)[1..], v, p, n, Some(b)), v - p,
      v, b.ve, b.vs, b.vs, b.vs, v + n);
    GapClosed(r, v, b.vs, v + n);
  }

  /** The selected level's own bounds lie inside the request. */
  lemma SelectedBounds(i: Level, v: nat, p: nat, n: nat)
    requires i <= 2 && p <= v && Fits(i, v - p, n)
    ensures var b := BoundsAt(i, v, p, n);
      InStep(b, v - p, Span(i)) && v <= b.ve <= b.vs <= v + n &&
      (i == 0 ==> b.ve == v && b.vs == v + n)
  {
    BoundsAtOk(i, v, p, n);
    LevelZeroLeavesNothing(v, p, n);
  }

  /** A cover with an empty gap covers the whole range. */
  lemma GapClosed(r: seq<Chunk>, lo: nat, h: nat, hi: nat)
    requires lo <= h <= hi && CoversGap(r, lo, h, h, hi)
    ensures CoversOnce(r, lo, hi)
  {}

  /** A selected level emits at least one chunk. */
  lemma SolveNonEmpty(vpn: nat, ppn: nat, n: nat, i: Level)
    requires i <= 2 && ppn <= vpn && Fits(i, vpn - ppn, n)
    ensures Emit(VisitLevelsFrom(i), vpn, ppn, n, None) != []
  {
    EmitFromSelected(i, vpn, ppn, n);
    CoversNonEmpty(Emit(Descending(i, 0), vpn, ppn, n, None), vpn, vpn + n);
  }

  /** The solver's answer maps every page of `vpn..vpn+n` exactly once and
      nothing else; every chunk is non-empty, aligned to its level on both
      the virtual and the physical side, and keeps the physical pages the
      requested distance below the virtual ones; levels never increase
      along the answer, no chunk is above the selected level `i` (so level
      3 is never used), and the answer holds at most `2i + 1` chunks. */
  lemma SolveCorrect(vpn: VirtPageNum, ppn: PhysPageNum, n: nat)
    requires ppn.n <= vpn.n && vpn.n + n < WORD
    ensures CoversOnce(Solve(vpn, ppn, n), vpn.n, vpn.n + n)
    ensures WellShaped(Solve(vpn, ppn, n), vpn.n - ppn.n)
    ensures LevelsAtMost(Solve(vpn, ppn, n), 2)
    ensures SelectLevel(vpn.n - ppn.n, n).Some? ==>
      LevelsAtMost(Solve(vpn, ppn, n), SelectLevel(vpn.n - ppn.n, n).value)
    ensures SelectLevel(vpn.n - ppn.n, n).Some? ==>
      |Solve(vpn, ppn, n)| <= 2 * SelectLevel(vpn.n - ppn.n, n).value + 1
  {
    var sel := SelectLevel(vpn.n - ppn.n, n);
    if sel.Some? {
      SolveFromSelected(vpn, ppn, n, sel.value);
    }
  }

  /** `Solve` once a level is selected: the inner loop from that level. */
  lemma SolveFromSelected(vpn: VirtPageNum, ppn: PhysPageNum, n: nat, i: Level)
    requires ppn.n <= vpn.n && vpn.n + n < WORD
    requires SelectLevel(vpn.n - ppn.n, n) == Some(i)
    ensures var r := Solve(vpn, ppn, n);
      CoversOnce(r, vpn.n, vpn.n + n) && WellShaped(r, vpn.n - ppn.n) &&
      LevelsAtMost(r, i) && LevelsAtMost(r, 2) && |r| <= 2 * i + 1
  {
    var v, p := vpn.n, ppn.n;
    var r := Solve(vpn, ppn, n);
    assert r == Emit(Descending(i, 0), v, p, n, None) by {
      SolveIsEmit(vpn, ppn, n, i);
    }
    assert i <= 2 && p <= v && Fits(i, v - p, n);
    EmitFromSelected(i, v, p, n);
    LevelsAtMostWidens(r, i, 2);
  }

  /** The shape of the answer: the selected level `i` contributes at most
      one chunk, first, running from the virtual start rounded up to the
      level's span to the virtual end rounded down (`BoundsAt`, and the
      same on the physical side), when those differ; every other chunk is
      at a lower level. */
  lemma SolveStartsWithMiddle(vpn: VirtPageNum, ppn: PhysPageNum, n: nat, i: Level)
    requires ppn.n <= vpn.n && vpn.n + n < WORD
    requires SelectLevel(vpn.n - ppn.n, n) == Some(i)
    ensures var b := BoundsAt(i, vpn.n, ppn.n, n);
      var r := Solve(vpn, ppn, n);
      && (b.ve != b.vs ==> |r| > 0 && r[0] == Chunk(i, Pair(b.ve, b.pe), Pair(b.vs, b.ps)))
      && (forall k :: (if b.ve != b.vs then 1 else 0) <= k < |r| ==> r[k].level < i)
  {
    var r := Solve(vpn, ppn, n);
    assert r == Emit(Descending(i, 0), vpn.n, ppn.n, n, None) by {
      SolveIsEmit(vpn, ppn, n, i);
    }
    assert Fits(i, vpn.n - ppn.n, n);
    EmitStartsWithMiddle(i, vpn.n, ppn.n, n);
  }

  /** The inner loop from level `i`: its first level pushes the middle
      chunk between that level's own bounds, if non-empty, and every later
      chunk is below `i`. */
  lemma EmitStartsWithMiddle(i: Level, v: nat, p: nat, n: nat)
    requires i <= 2 && p <= v && Fits(i, v - p, n)
    ensures var b := BoundsAt(i, v, p, n);
      var r := Emit(Descending(i, 0), v, p, n, None);
      && (b.ve != b.vs ==> |r| > 0 && r[0] == Chunk(i, Pair(b.ve, b.pe), Pair(b.vs, b.ps)))
      && (forall k :: (if b.ve != b.vs then 1 else 0) <= k < |r| ==> r[k].level < i)
  {
    var b := BoundsAt(i, v, p, n);
    var rest := Emit(Descending(i, 0)[1..], v, p, n, Some(b));
    var r := Emit(Descending(i, 0), v, p, n, None);
    assert r == Pieces(i, b, None) + rest by {
      EmitSplits(i, v, p, n, None);
    }
    assert LevelsBelow(rest, i) by {
      SelectedBounds(i, v, p, n);
      RestCovers(i, v, p, n, b);
    }
    if b.ve != b.vs {
      assert Pieces(i, b, None) == [Chunk(i, Pair(b.ve, b.pe), Pair(b.vs, b.ps))];
      forall k | 1 <= k < |r| ensures r[k].level < i {
        assert r[k] == rest[k - 1];
      }
    } else {
      assert r == rest;
    }
  }

  lemma SolveIsEmit(vpn: VirtPageNum, ppn: PhysPageNum, n: nat, i: Level)
    requires ppn.n <= vpn.n && vpn.n + n < WORD
    requires SelectLevel(vpn.n - ppn.n, n) == Some(i)
    ensures Solve(vpn, ppn, n) == Emit(Descending(i, 0), vpn.n, ppn.n, n, None)
  {
    assert Solve(vpn, ppn, n) == Emit(VisitLevelsFrom(i), vpn.n, ppn.n, n, None);
  }

  lemma LevelsAtMostWidens(r: seq<Chunk>, i: Level, l: Level)
    requires LevelsAtMost(r, i) && i <= l
    ensures LevelsAtMost(r, l)
  {}

  lemma {:induction false} CoverPositive(cs: seq<Chunk>, k: nat, x: nat)
    requires k < |cs| && InChunk(cs[k], x)
    ensures Cover(cs, x) >= 1
  {
    if k > 0 {
      CoverPositive(cs[1..], k - 1, x);
    }
  }

  /** Every chunk of the answer lies inside the request. */
  lemma SolveInside(vpn: VirtPageNum, ppn: PhysPageNum, n: nat)
    requires ppn.n <= vpn.n && vpn.n + n < WORD
    ensures forall k :: 0 <= k < |Solve(vpn, ppn, n)| ==>
      vpn.n <= Solve(vpn, ppn, n)[k].lo.v && Solve(vpn, ppn, n)[k].hi.v <= vpn.n + n
  {
    var r := Solve(vpn, ppn, n);
    SolveCorrect(vpn, ppn, n);
    forall k | 0 <= k < |r| ensures vpn.n <= r[k].lo.v && r[k].hi.v <= vpn.n + n {
      assert ChunkOk(r[k], vpn.n - ppn.n);
      CoverPositive(r, k, r[k].lo.v);
      CoverPositive(r, k, r[k].hi.v - 1);
    }
  }

  /** A request aligned to the largest level on both sides becomes a single
      level-2 chunk. */
  lemma SolveWholeGiant()
    ensures Solve(VirtPageNum(0), PhysPageNum(0), 0x4_0000) == [Chunk(2, Pair(0, 0), Pair(0x4_0000, 0x4_0000))]
  {
    assert SelectLevel(0, 0x4_0000) == Some(2);
    assert BoundsAt(2, 0, 0, 0x4_0000) == Bounds(0, 0x4_0000, 0, 0x4_0000);
    assert BoundsAt(1, 0, 0, 0x4_0000) == Bounds(0, 0x4_0000, 0, 0x4_0000);
    assert BoundsAt(0, 0, 0, 0x4_0000) == Bounds(0, 0x4_0000, 0, 0x4_0000);
  }

  /** The driver's request of `0x3e00` pages from page 0 is 31 whole
      level-1 spans, so the answer is one level-1 chunk and no edges. */
  lemma SolveDriverRequest()
    ensures Solve(VirtPageNum(0), PhysPageNum(0), 0x3e00) == [Chunk(1, Pair(0, 0), Pair(0x3e00, 0x3e00))]
  {
    assert SelectLevel(0, 0x3e00) == Some(1);
    assert BoundsAt(1, 0, 0, 0x3e00) == Bounds(0, 0x3e00, 0, 0x3e00);
    assert BoundsAt(0, 0, 0, 0x3e00) == Bounds(0, 0x3e00, 0, 0x3e00);
  }

  /** Unaligned ends: a level-1 middle with a level-0 page on each side,
      the physical side 512 pages below the virtual side. */
  lemma SolveWithEdges()
    ensures Solve(VirtPageNum(1023), PhysPageNum(511), 1026) ==
      [Chunk(1, Pair(1024, 512), Pair(2048, 1536)),
       Chunk(0, Pair(1023, 511), Pair(1024, 512)),
       Chunk(0, Pair(2048, 1536), Pair(2049, 1537))]
  {
    assert SelectLevel(512, 1026) == Some(1);
    assert BoundsAt(1, 1023, 511, 1026) == Bounds(1024, 2048, 512, 1536);
    assert BoundsAt(0, 1023, 511, 1026) == Bounds(1023, 2049, 511, 1537);
  }

  /** A distance that no block divides maps everything with pages. */
  lemma SolveMisaligned()
    ensures Solve(VirtPageNum(1), PhysPageNum(0), 1000) == [Chunk(0, Pair(1, 0), Pair(1001, 1000))]
  {
    assert SelectLevel(1, 1000) == Some(0);
    assert BoundsAt(0, 1, 0, 1000) == Bounds(1, 1001, 0, 1000);
  }

  // The `Step` implementation of `Pair`, which `Range<Pair>` iteration uses.

  /** Pairs in step: both components a common distance apart. */
  predicate Lockstep(a: Pair, b: Pair) {
    a.v + b.p == b.v + a.p
  }

  /** The derived lexicographic `<` on pairs. */
  predicate PairLess(a: Pair, b: Pair) {
    a.v < b.v || (a.v == b.v && a.p < b.p)
  }

  /** `steps_between`: the distance of the virtual components, an unsigned
      subtraction that panics when `end` is below `start`. */
  function StepsBetween(start: Pair, end: Pair): (r: Option<nat>)
    requires start.v <= end.v
    ensures r.Some?
  {
    Some(end.v - start.v)
  }

  /** `forward_checked`: both components advance by `count`; the additions
      panic on overflow. */
  function ForwardChecked(start: Pair, count: nat): (r: Option<Pair>)
    requires start.v + count < WORD && start.p + count < WORD
    ensures r.Some? && Lockstep(start, r.value)
  {
    Some(Pair(start.v + count, start.p + count))
  }

  /** `backward_checked` as written: it adds, exactly like `forward_checked`. */
  function BackwardCheckedAsWritten(start: Pair, count: nat): (r: Option<Pair>)
    requires start.v + count < WORD && start.p + count < WORD
    ensures r.Some? && Lockstep(start, r.value)
  {
    Some(Pair(start.v + count, start.p + count))
  }

  /** `backward_checked` as the `Step` contract wants it: both components
      move back by `count`, and there is no pair when either would go
      below zero. */
  function BackwardChecked(start: Pair, count: nat): (r: Option<Pair>)
    ensures r.Some? <==> count <= start.v && count <= start.p
    ensures r.Some? ==> Lockstep(r.value, start) && r.value.v + count == start.v
  {
    if count <= start.v && count <= start.p then Some(Pair(start.v - count, start.p - count)) else None
  }

  /** The `Step` law between the distance and the forward step: for pairs
      in step, `steps_between(a, b) == Some(c)` exactly when
      `forward_checked(a, c) == Some(b)`. */
  lemma StepsBetweenForward(a: Pair, b: Pair, c: nat)
    requires a.v <= b.v && Lockstep(a, b) && b.v < WORD && b.p < WORD
    ensures a.v + c < WORD && a.p + c < WORD ==> (StepsBetween(a, b) == Some(c) <==> ForwardChecked(a, c) == Some(b))
  {}

  /** The corrected backward step undoes the forward step and the other
      way round. */
  lemma ForwardBackwardRoundTrip(a: Pair, c: nat)
    requires a.v + c < WORD && a.p + c < WORD
    ensures BackwardChecked(ForwardChecked(a, c).value, c) == Some(a)
    ensures c <= a.v && c <= a.p ==> ForwardChecked(BackwardChecked(a, c).value, c) == Some(a)
  {}

  /** As written, the backward step moves forward, so it never undoes a
      non-zero forward step: stepping `Pair(1, 1)` forward by one and then
      "back" by one lands on `Pair(3, 3)`. */
  lemma BackwardAsWrittenMovesForward(a: Pair, c: nat)
    requires 0 < c && a.v + 2 * c < WORD && a.p + 2 * c < WORD
    ensures BackwardCheckedAsWritten(a, c) == ForwardChecked(a, c)
    ensures BackwardCheckedAsWritten(ForwardChecked(a, c).value, c) != Some(a)
    ensures BackwardCheckedAsWritten(ForwardChecked(Pair(1, 1), 1).value, 1) == Some(Pair(3, 3))
  {}

  /** `(lo..hi).step_by(a)`: `lo`, then every `a`-th pair while still below
      `hi`.  For a chunk the distance is a multiple of `a`, so the last
      step lands on `hi` and no addition leaves the machine word. */
  function StepBy(lo: Pair, hi: Pair, a: nat): (r: seq<Pair>)
    requires a > 0 && Lockstep(lo, hi) && hi.v < WORD && hi.p < WORD
    requires lo.v <= hi.v && (hi.v - lo.v) % a == 0
    ensures StepsWithin(r, lo, hi)
    decreases hi.v - lo.v
  {
    if PairLess(lo, hi) then
      StepDown(hi.v - lo.v, a);
      [lo] + StepBy(ForwardChecked(lo, a).value, hi, a)
    else []
  }

  /** Every pair stepped to lies in `[lo, hi)` and moves in lockstep
      with `lo`. */
  predicate StepsWithin(r: seq<Pair>, lo: Pair, hi: Pair) {
    forall k :: 0 <= k < |r| ==> lo.v <= r[k].v < hi.v && Lockstep(lo, r[k])
  }

  /** A chunk's range steps evenly by its level's span. */
  lemma ChunkStepsEvenly(c: Chunk, d: nat)
    requires ChunkOk(c, d)
    ensures Lockstep(c.lo, c.hi) && (c.hi.v - c.lo.v) % Span(c.level) == 0
  {
    var a := Span(c.level);
    DivModUnique(c.hi.v - c.lo.v, a, c.hi.v / a - c.lo.v / a, 0);
  }

  lemma StepDown(m: nat, a: nat)
    requires a > 0 && m > 0 && m % a == 0
    ensures a <= m && (m - a) % a == 0
  {
    if m < a {
      DivModUnique(m, a, 0, m);
    }
    DivModUnique(m - a, a, m / a - 1, 0);
  }

  /** `step_by` over a chunk yields `(hi - lo) / a` pairs, the `k`-th one
      `k * a` past `lo` on both sides. */
  lemma {:induction false} StepByPoints(lo: Pair, hi: Pair, a: nat)
    requires a > 0 && Lockstep(lo, hi) && hi.v < WORD && hi.p < WORD
    requires lo.v <= hi.v && (hi.v - lo.v) % a == 0
    ensures var r := StepBy(lo, hi, a);
      && |r| * a == hi.v - lo.v
      && forall k :: 0 <= k < |r| ==> r[k] == Pair(lo.v + k * a, lo.p + k * a)
    decreases hi.v - lo.v
  {
    var r := StepBy(lo, hi, a);
    if PairLess(lo, hi) {
      StepDown(hi.v - lo.v, a);
      var next := Pair(lo.v + a, lo.p + a);
      StepByPoints(next, hi, a);
      var rest := StepBy(next, hi, a);
      assert r == [lo] + rest;
      ShiftPoints(lo, rest, a);
    }
  }

  /** Putting `lo` in front of the points stepped from `lo + a`. */
  lemma ShiftPoints(lo: Pair, rest: seq<Pair>, a: nat)
    requires forall k :: 0 <= k < |rest| ==> rest[k] == Pair(lo.v + a + k * a, lo.p + a + k * a)
    ensures |[lo] + rest| * a == |rest| * a + a
    ensures forall k :: 0 <= k < |[lo] + rest| ==> ([lo] + rest)[k] == Pair(lo.v + k * a, lo.p + k * a)
  {
    var r := [lo] + rest;
    forall k | 1 <= k < |r| ensures r[k] == Pair(lo.v + k * a, lo.p + k * a) {
      assert r[k] == rest[k - 1];
      assert (k - 1) * a + a == k * a;
    }
  }
}
