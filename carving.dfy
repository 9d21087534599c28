/** The carving step of the randomized Prim's maze generator, on values.

    The grid is stored row by row: `grid[y][x]` is the cell at column `x`
    of row `y`, matching the source's `maze[y, x]`.  A cell holds one of the
    four integer codes below.  The class in prims_maze.dfy updates an
    `array2<int>` in place and is specified by the functions of this module. */
module Carving {

  const UNVISITED := 0
  const PATH := 1
  const WALL := 2
  const VISITED := 3

  /** A grid coordinate: `x` is the column, `y` the row. */
  datatype Pos = Pos(x: int, y: int)

  /** Everything the carver owns: the dimensions, the grid and the frontier list. */
  datatype State = State(width: int, height: int, grid: seq<seq<int>>, frontier: seq<Pos>)
  {
    /** The grid has `height` rows of `width` cells each. */
    predicate WellFormed()
    {
      |grid| == height && forall y :: 0 <= y < |grid| ==> |grid[y]| == width
    }

    predicate InBounds(p: Pos)
    {
      0 <= p.x < width && 0 <= p.y < height
    }

    function At(p: Pos): int
      requires WellFormed() && InBounds(p)
    {
      grid[p.y][p.x]
    }

    /** The state with the single cell `p` set to `v`. */
    function Write(p: Pos, v: int): (r: State)
      requires WellFormed() && InBounds(p)
      ensures r.WellFormed() && r.width == width && r.height == height
      ensures r.frontier == frontier
      ensures r.At(p) == v
      ensures forall q {:trigger r.At(q)} :: InBounds(q) && q != p ==> r.At(q) == At(q)
    {
      this.(grid := grid[p.y := grid[p.y][p.x := v]])
    }
  }

  /** The source's range test: is `val` within `0..bound`? */
  function KeepInRange(val: int, bound: int): (r: bool)
    ensures r <==> 0 <= val && val <= bound
  {
    val <= bound && val >= 0
  }

  /** The coordinate of the cell between a target `t` and the processed cell,
      which lies at `t - 2 * sign` (the callers pass sign 1 or -1). */
  function Between(t: int, sign: int): (r: int)
    ensures sign == 1 || sign == -1 ==> 2 * r == t + (t - 2 * sign)
  {
    if sign == -1 then t + 1 else t - 1
  }

  /** The code the case table leaves in the cell between, given the target's
      code and the old code of that cell. */
  function MidCode(target: int, mid: int): int
  {
    if target == UNVISITED || target == WALL then PATH
    else if target == PATH || target == VISITED then (if mid == PATH then PATH else WALL)
    else mid
  }

  /** The case table shared by BuildMazeX and BuildMazeY: `target` is the cell
      two steps from the processed cell, `mid` the cell between them. */
  function Carve(s: State, target: Pos, mid: Pos): (r: State)
    requires s.WellFormed() && s.InBounds(target) && s.InBounds(mid) && target != mid
    ensures r.WellFormed() && r.width == s.width && r.height == s.height
    ensures forall q {:trigger r.At(q)} :: s.InBounds(q) && q != target && q != mid ==> r.At(q) == s.At(q)
    ensures s.At(target) == UNVISITED ==>
      r.At(mid) == PATH && r.At(target) == VISITED && r.frontier == s.frontier + [target]
    ensures s.At(target) == WALL ==>
      r.At(mid) == PATH && r.At(target) == WALL && r.frontier == s.frontier
    ensures s.At(target) == PATH || s.At(target) == VISITED ==>
      r.At(mid) == (if s.At(mid) == PATH then PATH else WALL) &&
      r.At(target) == s.At(target) && r.frontier == s.frontier
    ensures !(0 <= s.At(target) <= 3) ==> r == s
    ensures r.At(mid) == MidCode(s.At(target), s.At(mid))
  {
    var t := s.At(target);
    if t == UNVISITED then
      var s1 := s.Write(mid, PATH);
      var s2 := s1.(frontier := s1.frontier + [target]);
      s2.Write(target, VISITED)
    else if t == WALL then
      s.Write(mid, PATH)
    else if t == PATH || t == VISITED then
      s.Write(mid, if s.At(mid) == PATH then PATH else WALL)
    else
      s
  }

  /** BuildMazeX: the target is (x, y), the cell between is in the same row;
      only those two cells and the frontier change. */
  function BuildX(s: State, x: int, y: int, sign: int): (r: State)
    requires s.WellFormed() && s.InBounds(Pos(x, y)) && s.InBounds(Pos(Between(x, sign), y))
    ensures r.WellFormed() && r.width == s.width && r.height == s.height
    ensures r.At(Pos(Between(x, sign), y)) == MidCode(s.At(Pos(x, y)), s.At(Pos(Between(x, sign), y)))
    ensures r.At(Pos(x, y)) == (if s.At(Pos(x, y)) == UNVISITED then VISITED else s.At(Pos(x, y)))
    ensures r.frontier == (if s.At(Pos(x, y)) == UNVISITED then s.frontier + [Pos(x, y)] else s.frontier)
    ensures forall q {:trigger r.At(q)} :: s.InBounds(q) && q != Pos(x, y) && q != Pos(Between(x, sign), y) ==>
      r.At(q) == s.At(q)
  {
    Carve(s, Pos(x, y), Pos(Between(x, sign), y))
  }

  /** BuildMazeY: the target is (x, y), the cell between is in the same column;
      only those two cells and the frontier change. */
  function BuildY(s: State, x: int, y: int, sign: int): (r: State)
    requires s.WellFormed() && s.InBounds(Pos(x, y)) && s.InBounds(Pos(x, Between(y, sign)))
    ensures r.WellFormed() && r.width == s.width && r.height == s.height
    ensures r.At(Pos(x, Between(y, sign))) == MidCode(s.At(Pos(x, y)), s.At(Pos(x, Between(y, sign))))
    ensures r.At(Pos(x, y)) == (if s.At(Pos(x, y)) == UNVISITED then VISITED else s.At(Pos(x, y)))
    ensures r.frontier == (if s.At(Pos(x, y)) == UNVISITED then s.frontier + [Pos(x, y)] else s.frontier)
    ensures forall q {:trigger r.At(q)} :: s.InBounds(q) && q != Pos(x, y) && q != Pos(x, Between(y, sign)) ==>
      r.At(q) == s.At(q)
  {
    Carve(s, Pos(x, y), Pos(x, Between(y, sign)))
  }

  /** `q` lies two steps from `p` along a row or a column. */
  predicate TwoStep(p: Pos, q: Pos)
  {
    (q.y == p.y && (q.x == p.x - 2 || q.x == p.x + 2)) ||
    (q.x == p.x && (q.y == p.y - 2 || q.y == p.y + 2))
  }

  /** `q` lies one step from `p` along a row or a column. */
  predicate OneStep(p: Pos, q: Pos)
  {
    (q.y == p.y && (q.x == p.x - 1 || q.x == p.x + 1)) ||
    (q.x == p.x && (q.y == p.y - 1 || q.y == p.y + 1))
  }

  /** The cell two steps from `p` in the direction of its neighbour `q`. */
  function Beyond(p: Pos, q: Pos): Pos
  {
    Pos(2 * q.x - p.x, 2 * q.y - p.y)
  }

  predicate Distinct(ps: seq<Pos>)
  {
    forall i, j :: 0 <= i < j < |ps| ==> ps[i] != ps[j]
  }

  /** The four range-checked calls of CheckOppositeNeighbors, one function each. */
  function LeftStep(s: State, pos: Pos): (r: State)
    requires s.WellFormed() && s.InBounds(pos)
    ensures r.WellFormed() && r.width == s.width && r.height == s.height
    ensures |s.frontier| <= |r.frontier|
  {
    if KeepInRange(pos.x - 2, s.width - 1) then BuildX(s, pos.x - 2, pos.y, -1) else s
  }

  function RightStep(s: State, pos: Pos): (r: State)
    requires s.WellFormed() && s.InBounds(pos)
    ensures r.WellFormed() && r.width == s.width && r.height == s.height
    ensures |s.frontier| <= |r.frontier|
  {
    if KeepInRange(pos.x + 2, s.width - 1) then BuildX(s, pos.x + 2, pos.y, 1) else s
  }

  function UpStep(s: State, pos: Pos): (r: State)
    requires s.WellFormed() && s.InBounds(pos)
    ensures r.WellFormed() && r.width == s.width && r.height == s.height
    ensures |s.frontier| <= |r.frontier|
  {
    if KeepInRange(pos.y - 2, s.height - 1) then BuildY(s, pos.x, pos.y - 2, -1) else s
  }

  function DownStep(s: State, pos: Pos): (r: State)
    requires s.WellFormed() && s.InBounds(pos)
    ensures r.WellFormed() && r.width == s.width && r.height == s.height
    ensures |s.frontier| <= |r.frontier|
  {
    if KeepInRange(pos.y + 2, s.height - 1) then BuildY(s, pos.x, pos.y + 2, 1) else s
  }

  /** The directional step number `d`, in the order of CheckOppositeNeighbors:
      -x, +x, -y, +y.  Toward and Steps write the four guarded blocks as a fold
      over `d` only so that the verifier unfolds one step at a time; ProcessLink
      proves the fold equal to the four steps written out in sequence. */
  function Toward(s: State, pos: Pos, d: nat): (r: State)
    requires s.WellFormed() && s.InBounds(pos) && d < 4
    ensures r.WellFormed() && r.width == s.width && r.height == s.height
    ensures |s.frontier| <= |r.frontier|
  {
    if d == 0 then LeftStep(s, pos)
    else if d == 1 then RightStep(s, pos)
    else if d == 2 then UpStep(s, pos)
    else DownStep(s, pos)
  }

  /** The directional steps from number `d` on, one after the other. */
  function Steps(s: State, pos: Pos, d: nat): (r: State)
    requires s.WellFormed() && s.InBounds(pos) && d <= 4
    ensures r.WellFormed() && r.width == s.width && r.height == s.height
    ensures |s.frontier| <= |r.frontier|
    decreases 4 - d
  {
    if d == 4 then s else Steps(Toward(s, pos, d), pos, d + 1)
  }

  /** CheckOppositeNeighbors: mark `pos` as a path, then apply the case table
      towards each of the four cells two steps away that pass the range test. */
  function Process(s: State, pos: Pos): (r: State)
    requires s.WellFormed() && s.InBounds(pos)
    ensures r.WellFormed() && r.width == s.width && r.height == s.height
    ensures |s.frontier| <= |r.frontier|
  {
    Steps(s.Write(pos, PATH), pos, 0)
  }

  /** What one Process call does, `r` being the result: `pos` becomes a path;
      each in-range cell two steps away that was unvisited becomes visited and
      is appended to the frontier, any other keeps its value; a cell one step
      away takes the value the case table gives it when the cell beyond it
      passed the range test, and keeps its value otherwise; nothing else
      changes; the old frontier stays in place in front of the appended cells. */
  ghost predicate ProcessSpec(s: State, r: State, pos: Pos)
    requires s.WellFormed() && s.InBounds(pos)
  {
    && r.WellFormed() && r.width == s.width && r.height == s.height
    && r.At(pos) == PATH
    && (forall q :: s.InBounds(q) && TwoStep(pos, q) ==>
          r.At(q) == (if s.At(q) == UNVISITED then VISITED else s.At(q)))
    && (forall q :: s.InBounds(q) && OneStep(pos, q) ==>
          r.At(q) == (if s.InBounds(Beyond(pos, q)) then MidCode(s.At(Beyond(pos, q)), s.At(q)) else s.At(q)))
    && (forall q :: s.InBounds(q) && q != pos && !TwoStep(pos, q) && !OneStep(pos, q) ==>
          r.At(q) == s.At(q))
    && |s.frontier| <= |r.frontier| && r.frontier[..|s.frontier|] == s.frontier
    && (forall i :: |s.frontier| <= i < |r.frontier| ==>
          s.InBounds(r.frontier[i]) && TwoStep(pos, r.frontier[i]) && s.At(r.frontier[i]) == UNVISITED)
    && (forall q :: s.InBounds(q) && TwoStep(pos, q) && s.At(q) == UNVISITED ==>
          q in r.frontier[|s.frontier|..])
    && Distinct(r.frontier[|s.frontier|..])
  }

  lemma ProcessEffect(s: State, pos: Pos)
    requires s.WellFormed() && s.InBounds(pos)
    ensures ProcessSpec(s, Process(s, pos), pos)
  {
    var s0 := s.Write(pos, PATH);
    var s1 := LeftStep(s0, pos);
    var s2 := RightStep(s1, pos);
    var s3 := UpStep(s2, pos);
    var s4 := DownStep(s3, pos);
    ProcessLink(s, pos, s0, s1, s2, s3, s4);
    ProgressFour(s, pos, s0, s1, s2, s3, s4);
    ProgressDone(s, s4, pos, TwoSteps(pos));
  }

  /** The four cells two steps from `pos`. */
  function TwoSteps(pos: Pos): (r: set<Pos>)
    ensures forall q :: TwoStep(pos, q) <==> q in r
  {
    {Pos(pos.x - 2, pos.y), Pos(pos.x + 2, pos.y), Pos(pos.x, pos.y - 2), Pos(pos.x, pos.y + 2)}
  }

  /** The four directional steps carve towards each of the four two-step cells. */
  lemma ProgressFour(s: State, pos: Pos, s0: State, s1: State, s2: State, s3: State, s4: State)
    requires s.WellFormed() && s.InBounds(pos)
    requires s0 == s.Write(pos, PATH) && s1 == LeftStep(s0, pos)
    requires s2 == RightStep(s1, pos) && s3 == UpStep(s2, pos) && s4 == DownStep(s3, pos)
    ensures Progress(s, s4, pos, TwoSteps(pos))
  {
    var d2 := {Pos(pos.x - 2, pos.y), Pos(pos.x + 2, pos.y)};
    var d3 := d2 + {Pos(pos.x, pos.y - 2)};
    ProgressRow(s, pos, s0, s1, s2);
    AdvanceUp(s, s2, pos, d2);
    AdvanceDown(s, s3, pos, d3);
    assert d3 + {Pos(pos.x, pos.y + 2)} == TwoSteps(pos);
  }

  /** The store at `pos` and the two steps along the row. */
  lemma ProgressRow(s: State, pos: Pos, s0: State, s1: State, s2: State)
    requires s.WellFormed() && s.InBounds(pos)
    requires s0 == s.Write(pos, PATH) && s1 == LeftStep(s0, pos) && s2 == RightStep(s1, pos)
    ensures Progress(s, s2, pos, {Pos(pos.x - 2, pos.y), Pos(pos.x + 2, pos.y)})
  {
    var d1 := {Pos(pos.x - 2, pos.y)};
    ProgressStart(s, pos);
    AdvanceLeft(s, s0, pos, {});
    AdvanceRight(s, s1, pos, d1);
    assert d1 + {Pos(pos.x + 2, pos.y)} == {Pos(pos.x - 2, pos.y), Pos(pos.x + 2, pos.y)};
  }

  lemma AdvanceLeft(s: State, r: State, pos: Pos, done: set<Pos>)
    requires s.WellFormed() && Progress(s, r, pos, done) && Pos(pos.x - 2, pos.y) !in done
    ensures Progress(s, LeftStep(r, pos), pos, done + {Pos(pos.x - 2, pos.y)})
  {
    Advance(s, r, LeftStep(r, pos), pos, done, Pos(pos.x - 2, pos.y), Pos(pos.x - 1, pos.y),
            KeepInRange(pos.x - 2, s.width - 1));
  }

  lemma AdvanceRight(s: State, r: State, pos: Pos, done: set<Pos>)
    requires s.WellFormed() && Progress(s, r, pos, done) && Pos(pos.x + 2, pos.y) !in done
    ensures Progress(s, RightStep(r, pos), pos, done + {Pos(pos.x + 2, pos.y)})
  {
    Advance(s, r, RightStep(r, pos), pos, done, Pos(pos.x + 2, pos.y), Pos(pos.x + 1, pos.y),
            KeepInRange(pos.x + 2, s.width - 1));
  }

  lemma AdvanceUp(s: State, r: State, pos: Pos, done: set<Pos>)
    requires s.WellFormed() && Progress(s, r, pos, done) && Pos(pos.x, pos.y - 2) !in done
    ensures Progress(s, UpStep(r, pos), pos, done + {Pos(pos.x, pos.y - 2)})
  {
    Advance(s, r, UpStep(r, pos), pos, done, Pos(pos.x, pos.y - 2), Pos(pos.x, pos.y - 1),
            KeepInRange(pos.y - 2, s.height - 1));
  }

  lemma AdvanceDown(s: State, r: State, pos: Pos, done: set<Pos>)
    requires s.WellFormed() && Progress(s, r, pos, done) && Pos(pos.x, pos.y + 2) !in done
    ensures Progress(s, DownStep(r, pos), pos, done + {Pos(pos.x, pos.y + 2)})
  {
    Advance(s, r, DownStep(r, pos), pos, done, Pos(pos.x, pos.y + 2), Pos(pos.x, pos.y + 1),
            KeepInRange(pos.y + 2, s.height - 1));
  }

  /** How far a Process call has got: `r` is `s` after marking `pos` and
      carving towards the two-step cells in `done`. */
  ghost predicate Progress(s: State, r: State, pos: Pos, done: set<Pos>)
    requires s.WellFormed()
  {
    GridProgress(s, r, pos, done) && FrontierProgress(s, r, pos, done)
  }

  ghost predicate GridProgress(s: State, r: State, pos: Pos, done: set<Pos>)
    requires s.WellFormed()
  {
    && r.WellFormed() && r.width == s.width && r.height == s.height && s.InBounds(pos)
    && r.At(pos) == PATH
    && (forall q {:trigger r.At(q)} :: s.InBounds(q) && TwoStep(pos, q) ==>
          r.At(q) == (if q in done && s.At(q) == UNVISITED then VISITED else s.At(q)))
    && (forall q {:trigger r.At(q)} :: s.InBounds(q) && OneStep(pos, q) ==>
          r.At(q) == (if Beyond(pos, q) in done && s.InBounds(Beyond(pos, q))
                      then MidCode(s.At(Beyond(pos, q)), s.At(q)) else s.At(q)))
    && (forall q {:trigger r.At(q)} :: s.InBounds(q) && q != pos && !TwoStep(pos, q) && !OneStep(pos, q) ==>
          r.At(q) == s.At(q))
  }

  ghost predicate FrontierProgress(s: State, r: State, pos: Pos, done: set<Pos>)
    requires s.WellFormed()
  {
    AppendedSoFar(s, r.frontier, pos, done)
  }

  /** `fr` is the old frontier followed by distinct, in-range, previously
      unvisited two-step cells from `done`, and holds each such cell of `done`. */
  ghost predicate AppendedSoFar(s: State, fr: seq<Pos>, pos: Pos, done: set<Pos>)
    requires s.WellFormed()
  {
    && |s.frontier| <= |fr| && fr[..|s.frontier|] == s.frontier
    && (forall i :: |s.frontier| <= i < |fr| ==>
          fr[i] in done && s.InBounds(fr[i]) && TwoStep(pos, fr[i]) && s.At(fr[i]) == UNVISITED)
    && (forall q :: q in done && s.InBounds(q) && TwoStep(pos, q) && s.At(q) == UNVISITED ==>
          q in fr[|s.frontier|..])
    && Distinct(fr[|s.frontier|..])
  }

  lemma ProgressStart(s: State, pos: Pos)
    requires s.WellFormed() && s.InBounds(pos)
    ensures Progress(s, s.Write(pos, PATH), pos, {})
  {
    var r := s.Write(pos, PATH);
    assert r.frontier[..|s.frontier|] == s.frontier;
    assert r.frontier[|s.frontier|..] == [];
  }

  /** One directional step of Process: carve towards `target` when it passed the
      range test, and otherwise leave the state alone. */
  lemma Advance(s: State, r: State, r': State, pos: Pos, done: set<Pos>, target: Pos, mid: Pos, inRange: bool)
    requires s.WellFormed() && Progress(s, r, pos, done)
    requires TwoStep(pos, target) && OneStep(pos, mid) && target == Beyond(pos, mid) && target !in done
    requires inRange <==> s.InBounds(target)
    requires inRange ==> s.InBounds(mid)
    requires r' == if inRange then Carve(r, target, mid) else r
    ensures Progress(s, r', pos, done + {target})
  {
    if !inRange {
      forall q | s.InBounds(q) && OneStep(pos, q) && q != mid ensures Beyond(pos, q) != target { }
    }
    if inRange {
      AdvanceGrid(s, r, pos, done, target, mid);
      AdvanceFrontier(s, r, pos, done, target, mid);
    }
  }

  lemma AdvanceGrid(s: State, r: State, pos: Pos, done: set<Pos>, target: Pos, mid: Pos)
    requires s.WellFormed() && GridProgress(s, r, pos, done)
    requires TwoStep(pos, target) && OneStep(pos, mid) && target !in done
    requires s.InBounds(target) && s.InBounds(mid)
    requires target == Beyond(pos, mid)
    ensures GridProgress(s, Carve(r, target, mid), pos, done + {target})
  {
    var r' := Carve(r, target, mid);
    forall q | s.InBounds(q) && TwoStep(pos, q)
      ensures r'.At(q) == (if q in done + {target} && s.At(q) == UNVISITED then VISITED else s.At(q))
    {
      if q != target {
        assert r'.At(q) == r.At(q);
      }
    }
    assert r.At(target) == s.At(target);
    assert r.At(mid) == s.At(mid);
    forall q | s.InBounds(q) && OneStep(pos, q)
      ensures r'.At(q) == (if Beyond(pos, q) in done + {target} && s.InBounds(Beyond(pos, q))
                           then MidCode(s.At(Beyond(pos, q)), s.At(q)) else s.At(q))
    {
      if q != mid {
        assert r'.At(q) == r.At(q);
        assert Beyond(pos, q) != target;
      }
    }
  }

  lemma AdvanceFrontier(s: State, r: State, pos: Pos, done: set<Pos>, target: Pos, mid: Pos)
    requires s.WellFormed() && GridProgress(s, r, pos, done) && FrontierProgress(s, r, pos, done)
    requires TwoStep(pos, target) && OneStep(pos, mid) && target !in done
    requires s.InBounds(target) && s.InBounds(mid)
    ensures FrontierProgress(s, Carve(r, target, mid), pos, done + {target})
  {
    assert r.At(target) == s.At(target);
    if s.At(target) == UNVISITED {
      AppendTarget(s, r.frontier, pos, done, target);
    } else {
      AppendedMore(s, r.frontier, pos, done, target);
    }
  }

  lemma AppendedMore(s: State, fr: seq<Pos>, pos: Pos, done: set<Pos>, target: Pos)
    requires s.WellFormed() && AppendedSoFar(s, fr, pos, done)
    requires s.InBounds(target) && s.At(target) != UNVISITED
    ensures AppendedSoFar(s, fr, pos, done + {target})
  {
  }

  lemma AppendTarget(s: State, fr: seq<Pos>, pos: Pos, done: set<Pos>, target: Pos)
    requires s.WellFormed() && AppendedSoFar(s, fr, pos, done)
    requires TwoStep(pos, target) && target !in done && s.InBounds(target) && s.At(target) == UNVISITED
    ensures AppendedSoFar(s, fr + [target], pos, done + {target})
  {
    var n := |s.frontier|;
    var fr' := fr + [target];
    var added := fr[n..];
    assert fr'[..n] == fr[..n];
    assert fr'[n..] == added + [target];
    assert target !in added by {
      forall i | 0 <= i < |added| ensures added[i] != target {
        assert added[i] == fr[n + i];
      }
    }
    AppendDistinct(added, target);
    forall i | n <= i < |fr'|
      ensures fr'[i] in done + {target} && s.InBounds(fr'[i]) && TwoStep(pos, fr'[i]) && s.At(fr'[i]) == UNVISITED
    {
      if i < |fr| {
        assert fr'[i] == fr[i];
      }
    }
    forall q | q in done + {target} && s.InBounds(q) && TwoStep(pos, q) && s.At(q) == UNVISITED
      ensures q in fr'[n..]
    {
      if q != target {
        assert q in added;
      }
    }
  }

  lemma AppendDistinct(ps: seq<Pos>, p: Pos)
    requires Distinct(ps) && p !in ps
    ensures Distinct(ps + [p])
  {
    forall i, j | 0 <= i < j < |ps| + 1 ensures (ps + [p])[i] != (ps + [p])[j] {
      if j == |ps| {
        assert (ps + [p])[i] == ps[i];
      }
    }
  }

  lemma ProgressDone(s: State, r: State, pos: Pos, done: set<Pos>)
    requires s.WellFormed() && Progress(s, r, pos, done)
    requires forall q :: TwoStep(pos, q) ==> q in done
    ensures ProcessSpec(s, r, pos)
  {
    forall q | OneStep(pos, q) ensures Beyond(pos, q) in done {
      assert TwoStep(pos, Beyond(pos, q));
    }
  }

  /** Process is the four directional steps, one after the other. */
  lemma ProcessLink(s: State, pos: Pos, s0: State, s1: State, s2: State, s3: State, s4: State)
    requires s.WellFormed() && s.InBounds(pos)
    requires s0 == s.Write(pos, PATH) && s1 == LeftStep(s0, pos)
    requires s2 == RightStep(s1, pos) && s3 == UpStep(s2, pos) && s4 == DownStep(s3, pos)
    ensures s4 == Process(s, pos)
  {
    assert Steps(s3, pos, 3) == Steps(s4, pos, 4) == s4;
    assert Steps(s2, pos, 2) == Steps(s3, pos, 3);
    assert Steps(s1, pos, 1) == Steps(s2, pos, 2);
    assert Steps(s0, pos, 0) == Steps(s1, pos, 1);
  }

  /** Each directional step of Process reads, at its in-range target, the code
      the target had before the call: the store at `pos` and the earlier steps
      write only other cells. */
  lemma TargetsRead(s: State, pos: Pos, s0: State, s1: State, s2: State, s3: State)
    requires s.WellFormed() && s.InBounds(pos)
    requires s0 == s.Write(pos, PATH) && s1 == LeftStep(s0, pos)
    requires s2 == RightStep(s1, pos) && s3 == UpStep(s2, pos)
    ensures s.InBounds(Pos(pos.x - 2, pos.y)) ==> s0.At(Pos(pos.x - 2, pos.y)) == s.At(Pos(pos.x - 2, pos.y))
    ensures s.InBounds(Pos(pos.x + 2, pos.y)) ==> s1.At(Pos(pos.x + 2, pos.y)) == s.At(Pos(pos.x + 2, pos.y))
    ensures s.InBounds(Pos(pos.x, pos.y - 2)) ==> s2.At(Pos(pos.x, pos.y - 2)) == s.At(Pos(pos.x, pos.y - 2))
    ensures s.InBounds(Pos(pos.x, pos.y + 2)) ==> s3.At(Pos(pos.x, pos.y + 2)) == s.At(Pos(pos.x, pos.y + 2))
  {
    var d1 := {Pos(pos.x - 2, pos.y)};
    var d2 := d1 + {Pos(pos.x + 2, pos.y)};
    var d3 := d2 + {Pos(pos.x, pos.y - 2)};
    ProgressStart(s, pos);
    AdvanceLeft(s, s0, pos, {});
    AdvanceRight(s, s1, pos, d1);
    AdvanceUp(s, s2, pos, d2);
    assert TwoStep(pos, Pos(pos.x - 2, pos.y)) && TwoStep(pos, Pos(pos.x + 2, pos.y));
    assert TwoStep(pos, Pos(pos.x, pos.y - 2)) && TwoStep(pos, Pos(pos.x, pos.y + 2));
  }
}
