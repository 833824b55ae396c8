/**
 The hierarchical sieve that chooses the step of an analysis grid (crates/opsense-mlib/src/grid.rs),
 over exact real numbers. Level `l` divides the range into 2^l cells; the number of crossings
 between consecutive values can only grow from one level to the next.
 */
module Sieve {
  import opened Wrappers

  datatype SieveConfig = SieveConfig(deltaMultiplier: real, minAbsDelta: real, minStepFrac: Option<real>)

  datatype Grid = Grid(step: real, offset: real, min: real, max: real, maxBit: nat)

  function Pow2(k: nat): (p: nat)
    ensures p > 0
  {
    if k == 0 then 1 else 2 * Pow2(k - 1)
  }

  /** `x >> k`: halved `k` times. */
  function Shifted(x: nat, k: nat): nat {
    if k == 0 then x else Shifted(x, k - 1) / 2
  }

  function Distance(a: nat, b: nat): nat {
    if b > a then b - a else a - b
  }

  /** The number of cell borders crossed between consecutive entries. */
  function Crossings(cells: seq<nat>): nat {
    if |cells| <= 1 then 0 else Crossings(cells[..|cells| - 1]) + Distance(cells[|cells| - 2], cells[|cells| - 1])
  }

  function Coarse(cells: seq<nat>, k: nat): (r: seq<nat>)
    ensures |r| == |cells| && forall i | 0 <= i < |cells| :: r[i] == Shifted(cells[i], k)
  {
    seq(|cells|, i requires 0 <= i < |cells| => Shifted(cells[i], k))
  }

  // ---------------------------------------------------------------- from one level to the next

  /** Halving the cells: the crossings do not grow, and lose at most half and one per segment. */
  lemma {:induction false} CrossingsHalved(fine: seq<nat>, coarse: seq<nat>)
    requires |fine| == |coarse| && forall i | 0 <= i < |fine| :: coarse[i] == fine[i] / 2
    ensures Crossings(coarse) <= Crossings(fine) <= 2 * Crossings(coarse) + if fine == [] then 0 else |fine| - 1
  {
    if |fine| > 1 {
      CrossingsHalved(fine[..|fine| - 1], coarse[..|fine| - 1]);
    }
  }

  /** The crossings at level `level` of the sieve. */
  ghost function LevelCrossings(cells: seq<nat>, maxBit: nat, level: nat): nat
    requires level <= maxBit
  {
    Crossings(Coarse(cells, maxBit - level))
  }

  function Segments<T(==)>(s: seq<T>): nat {
    if s == [] then 0 else |s| - 1
  }

  /** c(L) <= c(L+1) <= 2 c(L) + segments, for any data. */
  lemma NextLevel(cells: seq<nat>, maxBit: nat, level: nat)
    requires level < maxBit
    ensures LevelCrossings(cells, maxBit, level) <= LevelCrossings(cells, maxBit, level + 1)
    ensures LevelCrossings(cells, maxBit, level + 1) <= 2 * LevelCrossings(cells, maxBit, level) + Segments(cells)
  {
    var k := maxBit - level - 1;
    CoarseHalves(cells, k);
    CrossingsHalved(Coarse(cells, k), Coarse(cells, k + 1));
  }

  lemma CoarseHalves(cells: seq<nat>, k: nat)
    ensures forall i | 0 <= i < |cells| :: Coarse(cells, k + 1)[i] == Coarse(cells, k)[i] / 2
  {
  }

  /** Cells below 2^maxBit have no crossing at level 0, and at most 2^L - 1 per segment at level L. */
  lemma {:induction false} CellsBound(cells: seq<nat>, maxBit: nat, level: nat)
    requires level <= maxBit && forall i | 0 <= i < |cells| :: cells[i] < Pow2(maxBit)
    ensures LevelCrossings(cells, maxBit, level) <= (Pow2(level) - 1) * Segments(cells)
  {
    if level == 0 {
      forall i | 0 <= i < |cells| ensures Coarse(cells, maxBit)[i] == 0 {
        ShiftedBound(cells[i], maxBit, maxBit);
      }
      AllZero(Coarse(cells, maxBit));
    } else {
      CellsBound(cells, maxBit, level - 1);
      NextLevel(cells, maxBit, level - 1);
      DoubleBound(Pow2(level - 1), Segments(cells));
    }
  }

  lemma DoubleBound(p: nat, n: nat)
    ensures 2 * ((p - 1) * n) + n == (2 * p - 1) * n
  {
  }

  lemma {:induction false} ShiftedBound(x: nat, m: nat, k: nat)
    requires k <= m && x < Pow2(m)
    ensures Shifted(x, k) < Pow2(m - k)
  {
    if k > 0 {
      ShiftedBound(x, m, k - 1);
    }
  }

  lemma {:induction false} AllZero(cells: seq<nat>)
    requires forall i | 0 <= i < |cells| :: cells[i] == 0
    ensures Crossings(cells) == 0
  {
    if |cells| > 1 {
      AllZero(cells[..|cells| - 1]);
    }
  }

  // ---------------------------------------------------------------- the sieve

  function ToCell(y: real, min: real, max: real, maxBit: nat): nat
    requires min < max
  {
    if y <= min then 0
    else if y >= max then Pow2(maxBit) - 1
    else
      assert (y - min) / (max - min) * (Pow2(maxBit) as real) >= 0.0;
      ((y - min) / (max - min) * (Pow2(maxBit) as real)).Floor
  }

  function ToCells(values: seq<real>, min: real, max: real, maxBit: nat): (r: seq<nat>)
    requires min < max
    ensures |r| == |values| && forall i | 0 <= i < |values| :: r[i] == ToCell(values[i], min, max, maxBit)
  {
    seq(|values|, i requires 0 <= i < |values| => ToCell(values[i], min, max, maxBit))
  }

  function StepAt(min: real, max: real, level: nat): real {
    (max - min) / (Pow2(level) as real)
  }

  /** The level is not below the price floor. */
  predicate Above(cfg: SieveConfig, min: real, max: real, level: nat) {
    cfg.minStepFrac.Some? ==> !(StepAt(min, max, level) < cfg.minStepFrac.value * ((min + max) / 2.0))
  }

  function PerSegment(added: nat, segments: nat): real {
    (added as real) / ((if segments < 1 then 1 else segments) as real)
  }

  /** The crossings a level adds, per segment. */
  ghost function Delta(cells: seq<nat>, maxBit: nat, level: nat): real
    requires level <= maxBit
  {
    if level == 0 then 0.0
    else PerSegment(Growth(cells, maxBit, level), Segments(cells))
  }

  /** The crossings a level adds: never negative. */
  ghost function Growth(cells: seq<nat>, maxBit: nat, level: nat): nat
    requires 0 < level <= maxBit
  {
    NextLevel(cells, maxBit, level - 1);
    LevelCrossings(cells, maxBit, level) - LevelCrossings(cells, maxBit, level - 1)
  }

  predicate Spike(cfg: SieveConfig, level: nat, delta: real, prevDelta: real) {
    level >= 2 && delta > prevDelta * cfg.deltaMultiplier && delta >= cfg.minAbsDelta && prevDelta > 0.0
  }

  ghost predicate Passes(cfg: SieveConfig, cells: seq<nat>, min: real, max: real, maxBit: nat, level: nat)
    requires level <= maxBit
  {
    && Above(cfg, min, max, level)
    && !Spike(cfg, level, Delta(cells, maxBit, level), if level == 0 then 0.0 else Delta(cells, maxBit, level - 1))
  }

  ghost predicate PassesUpTo(cfg: SieveConfig, cells: seq<nat>, min: real, max: real, maxBit: nat, count: nat)
    requires count <= maxBit + 1
  {
    count > 0 ==> PassesUpTo(cfg, cells, min, max, maxBit, count - 1) && Passes(cfg, cells, min, max, maxBit, count - 1)
  }

  /** `count` is the number of levels accepted: all of them pass, and the next one, if any, does not. */
  ghost predicate Accepted(cfg: SieveConfig, cells: seq<nat>, min: real, max: real, maxBit: nat, count: nat) {
    && count <= maxBit + 1 && PassesUpTo(cfg, cells, min, max, maxBit, count)
    && (count <= maxBit ==> !Passes(cfg, cells, min, max, maxBit, count))
  }

  /** The step after `count` accepted levels: the whole range, or that of the last one. */
  function StepAfter(min: real, max: real, count: nat): real {
    if count == 0 then max - min else StepAt(min, max, count - 1)
  }

  /** The crossings between consecutive cells after a shift. */
  method CountCrossings(cells: seq<nat>, shift: nat) returns (c: nat)
    ensures c == Crossings(Coarse(cells, shift))
  {
    c := 0;
    var segments := if |cells| == 0 then 0 else |cells| - 1;
    ghost var coarse := Coarse(cells, shift);
    for i := 0 to segments
      invariant c == if cells == [] then 0 else Crossings(coarse[..i + 1])
    {
      var a, b := Shifted(cells[i], shift), Shifted(cells[i + 1], shift);
      assert coarse[..i + 2][..i + 1] == coarse[..i + 1];
      c := c + if b > a then b - a else a - b;
    }
    assert cells != [] ==> coarse[..segments + 1] == coarse;
  }

  /** `with_config`: the finest step that no rule forbids, going from coarse to fine. */
  method WithConfig(values: seq<real>, min: real, max: real, maxBit: nat, cfg: SieveConfig)
    returns (g: Grid, ghost count: nat)
    requires maxBit < 64
    ensures g.offset == g.min == min && g.max == max && g.maxBit == maxBit
    ensures max - min <= 0.0 || values == [] ==> g.step == 1.0 && count == 0
    ensures min < max && values != [] ==>
              && StopsAt(cfg, GridLines(values, min, max, maxBit), Segments(values), min, max, maxBit, count)
              && g.step == if count == 0 then max - min else (max - min) / (Pow2(count - 1) as real)
  {
    if max - min <= 0.0 || |values| == 0 {
      return Grid(1.0, min, min, max, maxBit), 0;
    }
    var cells := ToCells(values, min, max, maxBit);
    g, count := SieveLevels(cells, min, max, maxBit, cfg);
    AcceptedExactly(cfg, values, min, max, maxBit, count);
  }

  // ---------------------------------------------------------------- the rule in terms of the grids

  /** How often the data cross the lines of the grid with 2^l cells, for each l. */
  ghost function GridLines(values: seq<real>, min: real, max: real, maxBit: nat): nat -> nat
    requires min < max
  {
    (l: nat) => Crossings(CellsOf(GridAt(min, max, maxBit, l), values))
  }

  ghost function GridAt(min: real, max: real, maxBit: nat, l: nat): (g: Grid)
    requires min < max
    ensures g.step == (max - min) / (Pow2(l) as real) > 0.0 && g.offset == g.min == min && g.max == max
  {
    DivideByStep(max - min, max - min, Pow2(l) as real);
    Grid((max - min) / (Pow2(l) as real), min, min, max, maxBit)
  }

  /**
   The sieve does not go on to level `l`: its cells are smaller than the given fraction of the middle price, or the
   crossings `lines` jump.
   */
  ghost predicate Refused(cfg: SieveConfig, lines: nat -> nat, segments: nat, min: real, max: real, l: nat) {
    || (cfg.minStepFrac.Some? && (max - min) / (Pow2(l) as real) < cfg.minStepFrac.value * ((min + max) / 2.0))
    || (l >= 2 && Jumps(cfg, lines(l - 1) - lines(l - 2), lines(l) - lines(l - 1), segments))
  }

  /** The first `count` levels are not refused, and the next one, if there is one, is. */
  ghost predicate StopsAt(cfg: SieveConfig, lines: nat -> nat, segments: nat, min: real, max: real, maxBit: nat,
                          count: nat)
  {
    && count <= maxBit + 1
    && (forall l: nat | l < count :: !Refused(cfg, lines, segments, min, max, l))
    && (count <= maxBit ==> Refused(cfg, lines, segments, min, max, count))
  }

  /**
   The crossings grow by more than the multiple of their growth before, which was not zero, and by at least the
   minimum for each segment.
   */
  ghost predicate Jumps(cfg: SieveConfig, before: int, added: int, segments: nat) {
    && before > 0
    && added as real > cfg.deltaMultiplier * (before as real)
    && added as real >= cfg.minAbsDelta * ((if segments < 1 then 1 else segments) as real)
  }

  /** Comparing growth per segment is comparing growth. */
  lemma SpikeGrowth(cfg: SieveConfig, level: nat, g: real, b: real, added: int, before: int, n: nat)
    requires level >= 2
    requires var k := (if n < 1 then 1 else n) as real; g * k == added as real && b * k == before as real
    ensures Spike(cfg, level, g, b) <==> Jumps(cfg, before, added, n)
  {
    var k := (if n < 1 then 1 else n) as real;
    Scaling(g, b * cfg.deltaMultiplier, k);
    assert (b * cfg.deltaMultiplier) * k == cfg.deltaMultiplier * (b * k);
    Scaling(cfg.minAbsDelta, g, k);
    Scaling(b, 0.0, k);
  }

  lemma Scaling(x: real, y: real, k: real)
    requires k > 0.0
    ensures x > y <==> x * k > y * k
  {
    if x > y {
      assert (x - y) * k > 0.0;
    } else {
      assert (y - x) * k >= 0.0;
    }
  }

  /** `lines` are the crossings that the loop counts. */
  ghost predicate Counts(lines: nat -> nat, cells: seq<nat>, maxBit: nat) {
    forall l: nat {:trigger lines(l)} | l <= maxBit :: lines(l) == LevelCrossings(cells, maxBit, l)
  }

  lemma PassesExactly(cfg: SieveConfig, lines: nat -> nat, cells: seq<nat>, min: real, max: real, maxBit: nat, l: nat)
    requires l <= maxBit && Counts(lines, cells, maxBit)
    ensures Passes(cfg, cells, min, max, maxBit, l) <==> !Refused(cfg, lines, Segments(cells), min, max, l)
  {
    if l >= 2 {
      SpikeExactly(cfg, cells, maxBit, l, lines(l - 1) - lines(l - 2), lines(l) - lines(l - 1), Segments(cells));
    }
  }

  lemma SpikeExactly(cfg: SieveConfig, cells: seq<nat>, maxBit: nat, l: nat, before: int, added: int, n: nat)
    requires 2 <= l <= maxBit && n == Segments(cells)
    requires before == Growth(cells, maxBit, l - 1) && added == Growth(cells, maxBit, l)
    ensures Spike(cfg, l, Delta(cells, maxBit, l), Delta(cells, maxBit, l - 1)) <==> Jumps(cfg, before, added, n)
  {
    SpikePerSegment(cfg, l, added, before, n);
  }

  lemma GridCounts(values: seq<real>, min: real, max: real, maxBit: nat)
    requires min < max
    ensures Counts(GridLines(values, min, max, maxBit), ToCells(values, min, max, maxBit), maxBit)
  {
    var lines, cells := GridLines(values, min, max, maxBit), ToCells(values, min, max, maxBit);
    forall l: nat | l <= maxBit ensures lines(l) == LevelCrossings(cells, maxBit, l) {
      CountedCrossings(values, min, max, maxBit, l);
    }
  }

  lemma PerSegmentScaled(added: nat, n: nat)
    ensures PerSegment(added, n) * ((if n < 1 then 1 else n) as real) == added as real
  {
  }

  lemma SpikePerSegment(cfg: SieveConfig, l: nat, added: nat, before: nat, n: nat)
    requires l >= 2
    ensures Spike(cfg, l, PerSegment(added, n), PerSegment(before, n)) <==> Jumps(cfg, before, added, n)
  {
    PerSegmentScaled(added, n);
    PerSegmentScaled(before, n);
    SpikeGrowth(cfg, l, PerSegment(added, n), PerSegment(before, n), added, before, n);
  }

  lemma {:induction false} PassesAll(cfg: SieveConfig, cells: seq<nat>, min: real, max: real, maxBit: nat, count: nat)
    requires count <= maxBit + 1
    ensures PassesUpTo(cfg, cells, min, max, maxBit, count) <==>
            forall l: nat {:trigger Passes(cfg, cells, min, max, maxBit, l)} | l < count ::
              Passes(cfg, cells, min, max, maxBit, l)
  {
    if count > 0 {
      PassesAll(cfg, cells, min, max, maxBit, count - 1);
    }
  }

  lemma AcceptedCells(cfg: SieveConfig, lines: nat -> nat, cells: seq<nat>, min: real, max: real, maxBit: nat,
                      count: nat)
    requires Counts(lines, cells, maxBit)
    ensures Accepted(cfg, cells, min, max, maxBit, count) <==>
            StopsAt(cfg, lines, Segments(cells), min, max, maxBit, count)
  {
    forall l: nat | l <= maxBit
      ensures Passes(cfg, cells, min, max, maxBit, l) <==> !Refused(cfg, lines, Segments(cells), min, max, l)
    {
      PassesExactly(cfg, lines, cells, min, max, maxBit, l);
    }
    if count <= maxBit + 1 {
      PassesAll(cfg, cells, min, max, maxBit, count);
    }
  }

  /** The levels accepted are those before the first refused one. */
  lemma AcceptedExactly(cfg: SieveConfig, values: seq<real>, min: real, max: real, maxBit: nat, count: nat)
    requires min < max
    ensures Accepted(cfg, ToCells(values, min, max, maxBit), min, max, maxBit, count) <==>
            StopsAt(cfg, GridLines(values, min, max, maxBit), Segments(values), min, max, maxBit, count)
  {
    var cells := ToCells(values, min, max, maxBit);
    GridCounts(values, min, max, maxBit);
    assert Segments(values) == Segments(cells);
    AcceptedCells(cfg, GridLines(values, min, max, maxBit), cells, min, max, maxBit, count);
  }

  /** The loop over the levels. */
  method SieveLevels(cells: seq<nat>, min: real, max: real, maxBit: nat, cfg: SieveConfig)
    returns (g: Grid, ghost count: nat)
    ensures Accepted(cfg, cells, min, max, maxBit, count)
    ensures g == Grid(StepAfter(min, max, count), min, min, max, maxBit)
  {
    count := 0;
    g := Grid(max - min, min, min, max, maxBit);
    var prevCross: nat, prevDelta := 0, 0.0;
    for level := 0 to maxBit + 1
      invariant count == level && PassesUpTo(cfg, cells, min, max, maxBit, level)
      invariant g == Grid(StepAfter(min, max, level), min, min, max, maxBit)
      invariant Before(cells, maxBit, level, prevCross, prevDelta)
    {
      var ok, step;
      ok, step, prevCross, prevDelta := Judge(cells, min, max, maxBit, cfg, level, prevCross, prevDelta);
      if !ok {
        break;
      }
      g := Grid(step, min, min, max, maxBit);
      count := level + 1;
    }
  }

  /** One round of the loop: whether the level is accepted, and what the next round needs. */
  method Judge(cells: seq<nat>, min: real, max: real, maxBit: nat, cfg: SieveConfig, level: nat, prevCross: nat,
               prevDelta: real)
    returns (ok: bool, step: real, crossings: nat, delta: real)
    requires level <= maxBit && Before(cells, maxBit, level, prevCross, prevDelta)
    ensures ok <==> Passes(cfg, cells, min, max, maxBit, level)
    ensures step == StepAfter(min, max, level + 1)
    ensures ok ==> Before(cells, maxBit, level + 1, crossings, delta)
  {
    step, crossings, delta := StepAt(min, max, level), 0, 0.0;
    if !Above(cfg, min, max, level) {
      return false, step, crossings, delta;
    }
    crossings, delta := Measure(cells, maxBit, level, prevCross);
    ok := !Spike(cfg, level, delta, prevDelta);
  }

  /** What the loop remembers of the level before `level`. */
  ghost predicate Before(cells: seq<nat>, maxBit: nat, level: nat, prevCross: nat, prevDelta: real) {
    if level == 0 then prevCross == 0 && prevDelta == 0.0
    else
      && level <= maxBit + 1 && prevCross == LevelCrossings(cells, maxBit, level - 1)
      && prevDelta == Delta(cells, maxBit, level - 1)
  }

  /** The crossings of a level and their growth; the unsigned difference does not underflow. */
  method Measure(cells: seq<nat>, maxBit: nat, level: nat, prevCross: nat) returns (crossings: nat, delta: real)
    requires level <= maxBit && (level > 0 ==> prevCross == LevelCrossings(cells, maxBit, level - 1))
    ensures crossings == LevelCrossings(cells, maxBit, level) && delta == Delta(cells, maxBit, level)
  {
    crossings := CountCrossings(cells, maxBit - level);
    if level == 0 {
      return crossings, 0.0;
    }
    NextLevel(cells, maxBit, level - 1);
    assert Growth(cells, maxBit, level) == crossings - prevCross;
    delta := PerSegment(crossings - prevCross, Segments(cells));
  }

  lemma {:induction false} PassesBelow(cfg: SieveConfig, cells: seq<nat>, min: real, max: real, maxBit: nat,
                                       count: nat, l: nat)
    requires count <= maxBit + 1 && PassesUpTo(cfg, cells, min, max, maxBit, count)
    ensures l < count ==> l <= maxBit && Passes(cfg, cells, min, max, maxBit, l)
  {
    if count > 0 {
      PassesBelow(cfg, cells, min, max, maxBit, count - 1, l);
    }
  }

  /** The accepted levels are determined by the data and the configuration. */
  lemma AcceptedUnique(cfg: SieveConfig, cells: seq<nat>, min: real, max: real, maxBit: nat, a: nat, b: nat)
    requires Accepted(cfg, cells, min, max, maxBit, a) && Accepted(cfg, cells, min, max, maxBit, b)
    ensures a == b
  {
    PassesBelow(cfg, cells, min, max, maxBit, a, b);
    PassesBelow(cfg, cells, min, max, maxBit, b, a);
  }

  lemma HalfStep(min: real, max: real, level: nat)
    ensures StepAt(min, max, level + 1) == StepAt(min, max, level) / 2.0
  {
  }

  /** Below the floor once, below it at every finer level: leaving the loop there skips nothing. */
  lemma {:induction false} FloorIsFinal(cfg: SieveConfig, min: real, max: real, level: nat, finer: nat)
    requires min < max && level <= finer && !Above(cfg, min, max, level)
    ensures !Above(cfg, min, max, finer)
  {
    if level < finer {
      FloorIsFinal(cfg, min, max, level, finer - 1);
      HalfStep(min, max, finer - 1);
    }
  }

  // ---------------------------------------------------------------- the grid that is returned

  lemma QuotientPositive(a: real, b: real)
    requires a >= 0.0 && b > 0.0
    ensures a / b >= 0.0
  {
  }

  /** `cell`: the index of the cell that contains `y`. */
  function CellOf(g: Grid, y: real): nat
    requires g.step > 0.0 && g.offset == g.min
  {
    if y <= g.min then 0
    else if y >= g.max then NumCells(g) - 1
    else
      QuotientPositive(y - g.offset, g.step);
      ((y - g.offset) / g.step).Floor
  }

  function Ceiling(x: real): int {
    if (x.Floor as real) == x then x.Floor else x.Floor + 1
  }

  /** `num_cells`. */
  function NumCells(g: Grid): (n: nat)
    requires g.step > 0.0
    ensures n >= 1
  {
    var last := Ceiling((g.max - g.offset) / g.step);
    if last < 1 then 1 else last
  }

  /** `crossings`: how often consecutive values cross a line of the grid. */
  method GridCrossings(g: Grid, values: seq<real>) returns (count: nat)
    requires g.step > 0.0 && g.offset == g.min
    ensures count == Crossings(CellsOf(g, values))
  {
    count := 0;
    ghost var cells := CellsOf(g, values);
    var i := 1;
    while i < |values|
      invariant 1 <= i && (i <= |values| ==> count == Crossings(cells[..i]))
                && (i > |values| ==> count == 0 && values == [])
    {
      var a, b := CellOf(g, values[i - 1]), CellOf(g, values[i]);
      assert cells[..i + 1][..i] == cells[..i];
      count := count + Distance(a, b);
      i := i + 1;
    }
    assert values != [] ==> cells[..|values|] == cells;
  }

  ghost function CellsOf(g: Grid, values: seq<real>): (r: seq<nat>)
    requires g.step > 0.0 && g.offset == g.min
    ensures |r| == |values| && forall i | 0 <= i < |values| :: r[i] == CellOf(g, values[i])
  {
    seq(|values|, i requires 0 <= i < |values| => CellOf(g, values[i]))
  }

  /** A position scaled to a level. */
  ghost function Scaled(x: real, level: nat): real {
    x * (Pow2(level) as real)
  }

  lemma ScaledTwice(x: real, level: nat)
    ensures Scaled(x, level + 1) == 2.0 * Scaled(x, level)
  {
    assert Pow2(level + 1) as real == 2.0 * (Pow2(level) as real);
  }

  lemma ScaledPositive(x: real, level: nat)
    requires x >= 0.0
    ensures Scaled(x, level) >= 0.0
  {
  }

  lemma HalfFloor(z: real)
    requires z >= 0.0
    ensures (2.0 * z).Floor / 2 == z.Floor
  {
  }

  /** Halving a scaled position `k` times is scaling it to a level `k` coarser. */
  lemma {:induction false} ShiftedFloor(x: real, m: nat, k: nat)
    requires k <= m && x >= 0.0
    ensures Scaled(x, m).Floor >= 0 && Shifted(Scaled(x, m).Floor, k) == Scaled(x, m - k).Floor
  {
    ScaledPositive(x, m);
    if k > 0 {
      ShiftedFloor(x, m, k - 1);
      ScaledTwice(x, m - k);
      ScaledPositive(x, m - k);
      HalfFloor(Scaled(x, m - k));
    }
  }

  lemma {:induction false} ShiftedTop(m: nat, k: nat)
    requires k <= m
    ensures Shifted(Pow2(m) - 1, k) == Pow2(m - k) - 1
  {
    if k > 0 {
      ShiftedTop(m, k - 1);
    }
  }

  lemma {:induction false} ShiftedZero(k: nat)
    ensures Shifted(0, k) == 0
  {
    if k > 0 {
      ShiftedZero(k - 1);
    }
  }

  lemma DivideByStep(a: real, capacity: real, p: real)
    requires capacity > 0.0 && p > 0.0
    ensures capacity / p > 0.0 && a / (capacity / p) == a / capacity * p
  {
    var step := capacity / p;
    assert step * p == capacity;
    var q := a / step;
    assert q * step == a;
    assert (a / capacity) * capacity == a;
    assert (a / capacity * p) * step == (a / capacity) * (step * p);
    CancelStep(q, a / capacity * p, step);
  }

  lemma CancelStep(x: real, y: real, step: real)
    requires step > 0.0 && x * step == y * step
    ensures x == y
  {
    assert (x - y) * step == 0.0;
  }

  /** The cell of a value in the grid of level `level` is the cell that the sieve counted with. */
  lemma CellAgrees(y: real, min: real, max: real, maxBit: nat, level: nat)
    requires min < max && level <= maxBit
    ensures StepAt(min, max, level) > 0.0
    ensures CellOf(Grid(StepAt(min, max, level), min, min, max, maxBit), y) ==
            Shifted(ToCell(y, min, max, maxBit), maxBit - level)
  {
    var g, p, k := Grid(StepAt(min, max, level), min, min, max, maxBit), Pow2(level) as real, maxBit - level;
    DivideByStep(max - min, max - min, p);
    if y <= min {
      ShiftedZero(k);
    } else if y >= max {
      assert NumCells(g) == Pow2(level) by { TopCell(max - min, p, Pow2(level)); }
      ShiftedTop(maxBit, k);
    } else {
      InnerCell(y, min, max, maxBit, level);
    }
  }

  lemma TopCell(capacity: real, p: real, n: nat)
    requires capacity > 0.0 && p == n as real && n > 0 && capacity / p > 0.0
    ensures Ceiling(capacity / (capacity / p)) == n
  {
    DivideByStep(capacity, capacity, p);
    assert capacity / capacity == 1.0;
  }

  lemma InnerCell(y: real, min: real, max: real, maxBit: nat, level: nat)
    requires min < y < max && level <= maxBit && StepAt(min, max, level) > 0.0
    ensures ((y - min) / StepAt(min, max, level)).Floor == Shifted(ToCell(y, min, max, maxBit), maxBit - level)
  {
    var x := (y - min) / (max - min);
    QuotientPositive(y - min, max - min);
    DivideByStep(y - min, max - min, Pow2(level) as real);
    assert (y - min) / StepAt(min, max, level) == Scaled(x, level);
    assert ToCell(y, min, max, maxBit) == Scaled(x, maxBit).Floor;
    ShiftedFloor(x, maxBit, maxBit - level);
  }

  /** The returned grid crosses its data exactly as often as the sieve counted at the accepted level. */
  lemma CountedCrossings(values: seq<real>, min: real, max: real, maxBit: nat, level: nat)
    requires min < max && level <= maxBit
    ensures StepAt(min, max, level) > 0.0
    ensures Crossings(CellsOf(Grid(StepAt(min, max, level), min, min, max, maxBit), values)) ==
            LevelCrossings(ToCells(values, min, max, maxBit), maxBit, level)
  {
    DivideByStep(max - min, max - min, Pow2(level) as real);
    var g := Grid(StepAt(min, max, level), min, min, max, maxBit);
    var cells := ToCells(values, min, max, maxBit);
    forall i | 0 <= i < |values| ensures CellsOf(g, values)[i] == Coarse(cells, maxBit - level)[i] {
      CellAgrees(values[i], min, max, maxBit, level);
    }
    assert CellsOf(g, values) == Coarse(cells, maxBit - level);
  }

  /** Every position of the data is below 2^maxBit. */
  lemma CellsInRange(y: real, min: real, max: real, maxBit: nat)
    requires min < max
    ensures ToCell(y, min, max, maxBit) < Pow2(maxBit)
  {
    if min < y < max {
      var x, p := (y - min) / (max - min), Pow2(maxBit) as real;
      assert x * (max - min) == y - min;
      assert x < 1.0 by {
        assert x >= 1.0 ==> x * (max - min) >= max - min;
      }
      assert (1.0 - x) * p > 0.0;
      assert x * p < p;
    }
  }

  /** Inside the range, a value is in cell `k` if and only if it is between the borders of `k`. */
  lemma CellBorders(y: real, min: real, max: real, maxBit: nat, k: nat)
    requires min < y < max
    ensures ToCell(y, min, max, maxBit) == k <==>
            InCell(y - min, (max - min) / (Pow2(maxBit) as real), k)
  {
    StepAtLevel(min, max, maxBit);
    InnerCell(y, min, max, maxBit, maxBit);
    FloorBorders(y - min, StepAt(min, max, maxBit), k);
  }

  /** At distance `a` from the lower end of the range: between the borders `k` and `k + 1`. */
  ghost predicate InCell(a: real, width: real, k: nat) {
    (k as real) * width <= a < ((k + 1) as real) * width
  }

  lemma StepAtLevel(min: real, max: real, level: nat)
    requires min < max
    ensures StepAt(min, max, level) == (max - min) / (Pow2(level) as real) > 0.0
  {
    DivideByStep(max - min, max - min, Pow2(level) as real);
  }

  lemma FloorBorders(a: real, width: real, k: nat)
    requires width > 0.0
    ensures (a / width).Floor == k <==> InCell(a, width, k)
  {
    BorderScaled(a, width, a / width, k as real);
    BorderScaled(a, width, a / width, (k + 1) as real);
  }

  lemma BorderScaled(a: real, width: real, x: real, border: real)
    requires width > 0.0 && a / width == x
    ensures border <= x <==> border * width <= a
  {
    assert x * width == a;
    Scaling(border, x, width);
  }

  /** Border `k` lies between two cells: above the lower one and up to the higher one. */
  ghost predicate Separates(k: nat, a: nat, b: nat) {
    a < k <= b || b < k <= a
  }

  ghost function Borders(a: nat, b: nat): set<nat> {
    set k: nat | k <= a + b && Separates(k, a, b)
  }

  lemma {:induction false} BordersCount(a: nat, b: nat)
    requires a <= b
    ensures |Borders(a, b)| == |Borders(b, a)| == b - a
  {
    assert Borders(a, b) == Borders(b, a);
    if a < b {
      BordersCount(a, b - 1);
      assert Borders(a, b) == Borders(a, b - 1) + {b};
    } else {
      assert Borders(a, b) == {};
    }
  }

  /** The borders crossed, each with the segment that crosses it. */
  ghost function Crossed(cells: seq<nat>, n: nat): set<(nat, nat)>
    requires n == 0 || n < |cells|
  {
    if n == 0 then {} else Crossed(cells, n - 1) + Tag(n - 1, Borders(cells[n - 1], cells[n]))
  }

  lemma {:induction false} CrossedBefore(cells: seq<nat>, n: nat, i: nat, k: nat)
    requires n == 0 || n < |cells|
    ensures (i, k) in Crossed(cells, n) <==> i < n && Separates(k, cells[i], cells[i + 1])
  {
    if n > 0 {
      CrossedBefore(cells, n - 1, i, k);
    }
  }

  ghost function Tag(i: nat, ks: set<nat>): set<(nat, nat)> {
    set k | k in ks :: (i, k)
  }

  lemma {:induction false} Tagged(i: nat, ks: set<nat>)
    ensures |Tag(i, ks)| == |ks|
  {
    if ks != {} {
      var k :| k in ks;
      Tagged(i, ks - {k});
      assert Tag(i, ks) == Tag(i, ks - {k}) + {(i, k)};
    }
  }

  /** The crossings are the number of pairs of a segment and a border between its two cells. */
  lemma {:induction false} CrossingsExactly(cells: seq<nat>)
    ensures Crossings(cells) == |Crossed(cells, Segments(cells))|
    ensures forall i: nat, k: nat :: (i, k) in Crossed(cells, Segments(cells)) <==>
              i < Segments(cells) && Separates(k, cells[i], cells[i + 1])
  {
    forall i: nat, k: nat
      ensures (i, k) in Crossed(cells, Segments(cells)) <==>
              i < Segments(cells) && Separates(k, cells[i], cells[i + 1])
    {
      CrossedBefore(cells, Segments(cells), i, k);
    }
    CrossedCount(cells, Segments(cells));
    assert cells != [] ==> cells[..|cells|] == cells;
  }

  lemma {:induction false} CrossedCount(cells: seq<nat>, n: nat)
    requires n == 0 || n < |cells|
    ensures |Crossed(cells, n)| == if cells == [] then 0 else Crossings(cells[..n + 1])
  {
    if n > 0 {
      var a, b := cells[n - 1], cells[n];
      CrossedCount(cells, n - 1);
      CrossedNext(cells, n);
      if a <= b {
        BordersCount(a, b);
      } else {
        BordersCount(b, a);
      }
      assert cells[..n + 1][..n] == cells[..n];
    }
  }

  lemma CrossedNext(cells: seq<nat>, n: nat)
    requires 0 < n < |cells|
    ensures |Crossed(cells, n)| == |Crossed(cells, n - 1)| + |Borders(cells[n - 1], cells[n])|
  {
    var ks, before := Borders(cells[n - 1], cells[n]), Crossed(cells, n - 1);
    var more := Tag(n - 1, ks);
    Tagged(n - 1, ks);
    forall x | x in before ensures x !in more {
      CrossedBefore(cells, n - 1, x.0, x.1);
    }
    assert before !! more && Crossed(cells, n) == before + more;
  }

  /** For any data the sieve counts at most 2^L - 1 crossings per segment at level L, none at level 0. */
  lemma CrossingsBound(values: seq<real>, min: real, max: real, maxBit: nat, level: nat)
    requires min < max && level <= maxBit
    ensures LevelCrossings(ToCells(values, min, max, maxBit), maxBit, level) <=
            (Pow2(level) - 1) * if values == [] then 0 else |values| - 1
  {
    var cells := ToCells(values, min, max, maxBit);
    forall i | 0 <= i < |cells| ensures cells[i] < Pow2(maxBit) {
      CellsInRange(values[i], min, max, maxBit);
    }
    CellsBound(cells, maxBit, level);
  }
}
