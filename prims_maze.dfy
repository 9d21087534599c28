/** The PrimsMaze class: the grid is a two-dimensional array and the frontier a
    list field, both changed in place.  Each method is proved against the
    value-level function of the same step, so everything proved about those
    functions carries over to the object. */
module Prims {
  import opened Carving
  import opened Generation

  class PrimsMaze {
    const width: int
    const height: int
    const start: Pos
    var frontier: seq<Pos>
    const maze: array2<int>
    /** The object as a value of the carving model, kept in step with every
        write to the array and the frontier. */
    ghost var model: State

    /** The array has the dimensions the object was built with and holds the
        model's grid; the frontier is the model's. */
    ghost predicate Wf()
      reads this, maze
    {
      && maze.Length0 == height && maze.Length1 == width
      && model.WellFormed() && model.width == width && model.height == height
      && model.frontier == frontier
      && (forall q {:trigger maze[q.y, q.x]} :: model.InBounds(q) ==> model.At(q) == maze[q.y, q.x])
    }

    /** Sets up the grid and the frontier, then runs the generator; `rand(k, n)`
        stands for the k-th call of Random.Next(0, n). */
    constructor(width: int, height: int, start: Pos, rand: (nat, nat) -> nat)
      requires 0 <= start.x < width && 0 <= start.y < height && DrawsInRange(rand)
      ensures Wf() && this.width == width && this.height == height && this.start == start
      ensures fresh(maze)
      ensures model == Generate(Initial(width, height, start), rand, 0)
      ensures frontier == []
      ensures forall q :: model.InBounds(q) && Lattice(start, q) ==> maze[q.y, q.x] == PATH
      ensures forall q :: model.InBounds(q) && Lattice(start, q) ==> Joined(model, start, q)
    {
      this.width := width;
      this.height := height;
      this.start := start;
      frontier := [];
      maze := new int[height, width]((_, _) => UNVISITED);
      frontier := frontier + [start];
      model := Initial(width, height, start);
      new;
      InitialValid(width, height, start);
      GenerateCovers(width, height, start, rand);
      GenerateConnects(width, height, start, rand);
      Run(rand);
    }

    /** The Run loop: pick a random frontier entry, process it, remove it. */
    method Run(rand: (nat, nat) -> nat)
      requires Wf() && Valid(model) && DrawsInRange(rand)
      modifies this, maze
      ensures Wf() && model == Generate(old(model), rand, 0)
      ensures frontier == []
    {
      var k := 0;
      while |frontier| > 0
        invariant Wf() && Valid(model)
        invariant Generate(model, rand, k) == Generate(old(model), rand, 0)
        decreases Unvisited(model), |frontier|
      {
        var index := rand(k, |frontier|);
        GenerateStep(model, rand, k, index);
        Iteration(index);
        k := k + 1;
      }
    }

    /** The body of the Run loop for a drawn index: process that frontier entry,
        then remove it from the list. */
    method Iteration(index: nat)
      requires Wf() && Valid(model) && index < |frontier|
      modifies this, maze
      ensures Wf() && model == Iterate(old(model), index)
    {
      CheckOppositeNeighbors(frontier[index]);
      ghost var p := model;
      frontier := RemoveAt(frontier, index);
      model := model.(frontier := frontier);
      assert Wf() by {
        forall q | model.InBounds(q) ensures model.At(q) == maze[q.y, q.x] {
          assert model.At(q) == p.At(q);
        }
      }
    }

    /** Carving along a row; the caller has checked that (x, y) is in range. */
    method BuildMazeX(x: int, y: int, sign: int)
      requires Wf() && 0 <= x < width && 0 <= Between(x, sign) < width && 0 <= y < height
      modifies this, maze
      ensures Wf() && model == BuildX(old(model), x, y, sign)
    {
      var m := if sign == -1 then x + 1 else x - 1;
      if maze[y, x] == UNVISITED {
        maze[y, m] := PATH;
        model := model.Write(Pos(m, y), PATH);
        frontier := frontier + [Pos(x, y)];
        model := model.(frontier := model.frontier + [Pos(x, y)]);
        maze[y, x] := VISITED;
        model := model.Write(Pos(x, y), VISITED);
      } else if maze[y, x] == WALL {
        maze[y, m] := PATH;
        model := model.Write(Pos(m, y), PATH);
      } else if maze[y, x] == PATH || maze[y, x] == VISITED {
        var v := if maze[y, m] == PATH then PATH else WALL;
        maze[y, m] := v;
        model := model.Write(Pos(m, y), v);
      }
    }

    /** Carving along a column; the caller has checked that (x, y) is in range. */
    method BuildMazeY(x: int, y: int, sign: int)
      requires Wf() && 0 <= x < width && 0 <= y < height && 0 <= Between(y, sign) < height
      modifies this, maze
      ensures Wf() && model == BuildY(old(model), x, y, sign)
    {
      var m := if sign == -1 then y + 1 else y - 1;
      if maze[y, x] == UNVISITED {
        maze[m, x] := PATH;
        model := model.Write(Pos(x, m), PATH);
        frontier := frontier + [Pos(x, y)];
        model := model.(frontier := model.frontier + [Pos(x, y)]);
        maze[y, x] := VISITED;
        model := model.Write(Pos(x, y), VISITED);
      } else if maze[y, x] == WALL {
        maze[m, x] := PATH;
        model := model.Write(Pos(x, m), PATH);
      } else if maze[y, x] == PATH || maze[y, x] == VISITED {
        var v := if maze[m, x] == PATH then PATH else WALL;
        maze[m, x] := v;
        model := model.Write(Pos(x, m), v);
      }
    }

    /** Marks `pos` as a path and carves towards each in-range cell two steps
        away; each guarded block is one of the four methods below. */
    method CheckOppositeNeighbors(pos: Pos)
      requires Wf() && 0 <= pos.x < width && 0 <= pos.y < height
      modifies this, maze
      ensures Wf() && model == Process(old(model), pos)
    {
      maze[pos.y, pos.x] := PATH;
      model := model.Write(pos, PATH);
      ghost var s0 := model;
      CheckLeft(pos);
      ghost var s1 := model;
      CheckRight(pos);
      ghost var s2 := model;
      CheckUp(pos);
      ghost var s3 := model;
      CheckDown(pos);
      ProcessLink(old(model), pos, s0, s1, s2, s3, model);
    }

    /** The cell two to the left, when it is in range. */
    method CheckLeft(pos: Pos)
      requires Wf() && 0 <= pos.x < width && 0 <= pos.y < height
      modifies this, maze
      ensures Wf() && model == LeftStep(old(model), pos)
    {
      if KeepInRange(pos.x - 2, width - 1) {
        BuildMazeX(pos.x - 2, pos.y, -1);
      }
    }

    /** The cell two to the right, when it is in range. */
    method CheckRight(pos: Pos)
      requires Wf() && 0 <= pos.x < width && 0 <= pos.y < height
      modifies this, maze
      ensures Wf() && model == RightStep(old(model), pos)
    {
      if KeepInRange(pos.x + 2, width - 1) {
        BuildMazeX(pos.x + 2, pos.y, 1);
      }
    }

    /** The cell two rows up, when it is in range. */
    method CheckUp(pos: Pos)
      requires Wf() && 0 <= pos.x < width && 0 <= pos.y < height
      modifies this, maze
      ensures Wf() && model == UpStep(old(model), pos)
    {
      if KeepInRange(pos.y - 2, height - 1) {
        BuildMazeY(pos.x, pos.y - 2, -1);
      }
    }

    /** The cell two rows down, when it is in range. */
    method CheckDown(pos: Pos)
      requires Wf() && 0 <= pos.x < width && 0 <= pos.y < height
      modifies this, maze
      ensures Wf() && model == DownStep(old(model), pos)
    {
      if KeepInRange(pos.y + 2, height - 1) {
        BuildMazeY(pos.x, pos.y + 2, 1);
      }
    }
  }
}
