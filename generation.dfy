/** The Run loop of the maze generator, on values: one iteration, the loop
    invariant, the termination measure and the whole run as a recursive
    function of the random draws. */
module Generation {
  import opened Carving

  /** List.RemoveAt: the list without its `i`-th element. */
  function RemoveAt(ps: seq<Pos>, i: nat): (r: seq<Pos>)
    requires i < |ps|
    ensures |r| == |ps| - 1
    ensures forall j :: 0 <= j < i ==> r[j] == ps[j]
    ensures forall j :: i <= j < |r| ==> r[j] == ps[j + 1]
  {
    ps[..i] + ps[i + 1..]
  }

  /** One iteration of the Run loop: process the entry at `index`, then remove
      that index from the frontier as it stands after processing. */
  function Iterate(s: State, index: nat): (r: State)
    requires s.WellFormed() && index < |s.frontier| && s.InBounds(s.frontier[index])
    ensures r.WellFormed() && r.width == s.width && r.height == s.height
  {
    var p := Process(s, s.frontier[index]);
    p.(frontier := RemoveAt(p.frontier, index))
  }

  /** Every stored cell value is one of the four codes. */
  ghost predicate CodesOk(s: State)
    requires s.WellFormed()
  {
    forall p :: s.InBounds(p) ==> 0 <= s.At(p) <= 3
  }

  ghost predicate FrontierInBounds(s: State)
  {
    forall i :: 0 <= i < |s.frontier| ==> s.InBounds(s.frontier[i])
  }

  /** From `s` to `r` no cell becomes unvisited again and no path cell changes. */
  ghost predicate Grown(s: State, r: State)
    requires s.WellFormed() && r.WellFormed() && r.width == s.width && r.height == s.height
  {
    forall q :: s.InBounds(q) ==>
      (r.At(q) == UNVISITED ==> s.At(q) == UNVISITED) && (s.At(q) == PATH ==> r.At(q) == PATH)
  }

  /** Every cell marked visited is waiting in the frontier. */
  ghost predicate VisitedListed(s: State)
    requires s.WellFormed()
  {
    forall p :: s.InBounds(p) && s.At(p) == VISITED ==> p in s.frontier
  }

  /** No frontier entry is still unvisited. */
  ghost predicate Settled(s: State)
    requires s.WellFormed() && FrontierInBounds(s)
  {
    forall i :: 0 <= i < |s.frontier| ==> s.At(s.frontier[i]) != UNVISITED
  }

  /** The invariant of the Run loop.  While the frontier has a single entry,
      that entry may still be unvisited (it is the start, before the first
      iteration); otherwise no entry is. */
  ghost predicate Valid(s: State)
  {
    && s.WellFormed()
    && CodesOk(s)
    && FrontierInBounds(s)
    && Distinct(s.frontier)
    && VisitedListed(s)
    && (|s.frontier| == 1 || Settled(s))
  }

  /** Each iteration removes exactly the processed entry: the new frontier is the
      old one without index `index`, followed by the entries Process appended. */
  lemma IterateFrontier(s: State, index: nat)
    requires s.WellFormed() && index < |s.frontier| && s.InBounds(s.frontier[index])
    ensures var p := Process(s, s.frontier[index]);
      Iterate(s, index).frontier == RemoveAt(s.frontier, index) + p.frontier[|s.frontier|..]
  {
    var pos := s.frontier[index];
    ProcessEffect(s, pos);
    RemoveBeforeAppended(s.frontier, Process(s, pos).frontier, index);
  }

  lemma RemoveBeforeAppended(before: seq<Pos>, fr: seq<Pos>, index: nat)
    requires index < |before| <= |fr| && fr[..|before|] == before
    ensures RemoveAt(fr, index) == RemoveAt(before, index) + fr[|before|..]
  {
    var n := |before|;
    assert fr == before + fr[n..] by {
      assert fr == fr[..n] + fr[n..];
    }
    assert fr[..index] == before[..index];
    assert fr[index + 1..] == before[index + 1..] + fr[n..];
  }

  /** Every iteration of the Run loop preserves its invariant. */
  lemma IterateKeepsValid(s: State, index: nat)
    requires Valid(s) && index < |s.frontier|
    ensures Valid(Iterate(s, index))
  {
    var pos := s.frontier[index];
    ProcessEffect(s, pos);
    StepKeepsValid(s, index, Process(s, pos));
  }

  /** The same, for any `p` that does what Process promises. */
  lemma StepKeepsValid(s: State, index: nat, p: State)
    requires Valid(s) && index < |s.frontier| && ProcessSpec(s, p, s.frontier[index])
    ensures Valid(p.(frontier := RemoveAt(p.frontier, index)))
  {
    var pos := s.frontier[index];
    var n := |s.frontier|;
    var r := p.(frontier := RemoveAt(p.frontier, index));
    var kept := RemoveAt(s.frontier, index);
    var added := p.frontier[n..];
    StepCodes(s, p, pos);
    AddedFacts(s, p, pos);
    KeptFacts(s, index);
    RemoveBeforeAppended(s.frontier, p.frontier, index);
    assert r.frontier == kept + added;
    assert CodesOk(r) by {
      forall q | r.InBounds(q) ensures 0 <= r.At(q) <= 3 {
        assert r.At(q) == p.At(q);
      }
    }
    StepFrontierValid(s, index, p);
    StepVisitedListed(s, index, p);
  }

  /** Process writes only the four codes and never the unvisited one. */
  lemma StepCodes(s: State, p: State, pos: Pos)
    requires s.WellFormed() && s.InBounds(pos) && ProcessSpec(s, p, pos)
    ensures Grown(s, p)
    ensures CodesOk(s) ==> CodesOk(p)
  {
    forall q | s.InBounds(q)
      ensures p.At(q) == UNVISITED ==> s.At(q) == UNVISITED
      ensures s.At(q) == PATH ==> p.At(q) == PATH
      ensures 0 <= s.At(q) <= 3 ==> 0 <= p.At(q) <= 3
    {
      if q == pos {
      } else if TwoStep(pos, q) {
      } else if OneStep(pos, q) {
      } else {
      }
    }
  }

  /** The appended entries are distinct, unvisited two-step cells of `pos`,
      now marked visited. */
  lemma AddedFacts(s: State, p: State, pos: Pos)
    requires s.WellFormed() && s.InBounds(pos) && ProcessSpec(s, p, pos)
    ensures Distinct(p.frontier[|s.frontier|..])
    ensures forall i :: |s.frontier| <= i < |p.frontier| ==>
      s.InBounds(p.frontier[i]) && TwoStep(pos, p.frontier[i]) &&
      s.At(p.frontier[i]) == UNVISITED && p.At(p.frontier[i]) == VISITED
  {
  }

  /** The entries kept from the old frontier are its entries other than index `index`. */
  lemma KeptFacts(s: State, index: nat)
    requires Valid(s) && index < |s.frontier|
    ensures var kept := RemoveAt(s.frontier, index);
      && Distinct(kept)
      && (forall j :: 0 <= j < |kept| ==> kept[j] != s.frontier[index] && kept[j] in s.frontier)
      && (forall j :: 0 <= j < |kept| ==> s.InBounds(kept[j]) && s.At(kept[j]) != UNVISITED)
  {
    var kept := RemoveAt(s.frontier, index);
    RemoveAtDistinct(s.frontier, index);
    forall j | 0 <= j < |kept|
      ensures kept[j] != s.frontier[index] && kept[j] in s.frontier
      ensures s.InBounds(kept[j]) && s.At(kept[j]) != UNVISITED
    {
      var j' := if j < index then j else j + 1;
      assert kept[j] == s.frontier[j'];
    }
  }

  lemma StepFrontierValid(s: State, index: nat, p: State)
    requires Valid(s) && index < |s.frontier| && ProcessSpec(s, p, s.frontier[index])
    requires var kept := RemoveAt(s.frontier, index);
      && Distinct(kept)
      && (forall j :: 0 <= j < |kept| ==> s.InBounds(kept[j]) && s.At(kept[j]) != UNVISITED)
    requires Distinct(p.frontier[|s.frontier|..])
    requires forall i :: |s.frontier| <= i < |p.frontier| ==>
      s.InBounds(p.frontier[i]) && s.At(p.frontier[i]) == UNVISITED && p.At(p.frontier[i]) == VISITED
    requires forall q :: s.InBounds(q) && p.At(q) == UNVISITED ==> s.At(q) == UNVISITED
    requires RemoveAt(p.frontier, index) == RemoveAt(s.frontier, index) + p.frontier[|s.frontier|..]
    ensures var r := p.(frontier := RemoveAt(p.frontier, index));
      FrontierInBounds(r) && Distinct(r.frontier) && Settled(r)
  {
    var n := |s.frontier|;
    var r := p.(frontier := RemoveAt(p.frontier, index));
    var kept := RemoveAt(s.frontier, index);
    var added := p.frontier[n..];
    forall i | 0 <= i < |added|
      ensures s.InBounds(added[i]) && s.At(added[i]) == UNVISITED && p.At(added[i]) == VISITED
    {
      assert added[i] == p.frontier[n + i];
    }
    ConcatDistinct(kept, added);
    forall i | 0 <= i < |r.frontier| ensures r.InBounds(r.frontier[i]) && r.At(r.frontier[i]) != UNVISITED {
      if i < |kept| {
        assert r.frontier[i] == kept[i];
      } else {
        assert r.frontier[i] == added[i - |kept|];
      }
    }
  }

  lemma StepVisitedListed(s: State, index: nat, p: State)
    requires Valid(s) && index < |s.frontier| && ProcessSpec(s, p, s.frontier[index])
    requires RemoveAt(p.frontier, index) == RemoveAt(s.frontier, index) + p.frontier[|s.frontier|..]
    ensures VisitedListed(p.(frontier := RemoveAt(p.frontier, index)))
  {
    var pos := s.frontier[index];
    var n := |s.frontier|;
    var r := p.(frontier := RemoveAt(p.frontier, index));
    var kept := RemoveAt(s.frontier, index);
    forall q | r.InBounds(q) && r.At(q) == VISITED ensures q in r.frontier {
      if TwoStep(pos, q) && s.At(q) == UNVISITED {
        assert q in p.frontier[n..];
      } else {
        assert s.At(q) == VISITED by {
          if q == pos {
          } else if TwoStep(pos, q) {
          } else if OneStep(pos, q) {
          } else {
          }
        }
        var j :| 0 <= j < n && s.frontier[j] == q;
        assert j != index;
        if j < index { assert kept[j] == q; } else { assert kept[j - 1] == q; }
      }
    }
  }

  lemma RemoveAtDistinct(ps: seq<Pos>, i: nat)
    requires Distinct(ps) && i < |ps|
    ensures Distinct(RemoveAt(ps, i))
  {
    var r := RemoveAt(ps, i);
    forall a, b | 0 <= a < b < |r| ensures r[a] != r[b] {
      var a' := if a < i then a else a + 1;
      var b' := if b < i then b else b + 1;
      assert r[a] == ps[a'] && r[b] == ps[b'];
    }
  }

  lemma ConcatDistinct(xs: seq<Pos>, ys: seq<Pos>)
    requires Distinct(xs) && Distinct(ys)
    requires forall i, j :: 0 <= i < |xs| && 0 <= j < |ys| ==> xs[i] != ys[j]
    ensures Distinct(xs + ys)
  {
    var zs := xs + ys;
    forall a, b | 0 <= a < b < |zs| ensures zs[a] != zs[b] {
      if b < |xs| {
        assert zs[a] == xs[a] && zs[b] == xs[b];
      } else if a < |xs| {
        assert zs[a] == xs[a] && zs[b] == ys[b - |xs|];
      } else {
        assert zs[a] == ys[a - |xs|] && zs[b] == ys[b - |xs|];
      }
    }
  }

  /** The cells still unvisited; with the frontier length it bounds the Run loop. */
  ghost function Unvisited(s: State): (r: set<Pos>)
    requires s.WellFormed()
    ensures forall q :: q in r <==> s.InBounds(q) && s.At(q) == UNVISITED
  {
    set y, x | 0 <= y < s.height && 0 <= x < s.width && s.grid[y][x] == UNVISITED :: Pos(x, y)
  }

  /** `r` is below `s` in the lexicographic order on (unvisited cells, frontier length). */
  ghost predicate Below(r: State, s: State)
    requires s.WellFormed() && r.WellFormed()
  {
    Unvisited(r) < Unvisited(s) || (Unvisited(r) == Unvisited(s) && |r.frontier| < |s.frontier|)
  }

  /** Every iteration of the Run loop goes down in that order: either it marks an
      unvisited cell, or it appends nothing and the frontier shrinks by one. */
  lemma IterateShrinks(s: State, index: nat)
    requires Valid(s) && index < |s.frontier|
    ensures Below(Iterate(s, index), s)
  {
    var pos := s.frontier[index];
    ProcessEffect(s, pos);
    StepShrinks(s, index, Process(s, pos));
  }

  lemma StepShrinks(s: State, index: nat, p: State)
    requires Valid(s) && index < |s.frontier| && ProcessSpec(s, p, s.frontier[index])
    ensures Below(p.(frontier := RemoveAt(p.frontier, index)), s)
  {
    var r := p.(frontier := RemoveAt(p.frontier, index));
    var n := |s.frontier|;
    StepCodes(s, p, s.frontier[index]);
    assert Unvisited(r) <= Unvisited(s) by {
      forall q | q in Unvisited(r) ensures q in Unvisited(s) {
        assert r.At(q) == p.At(q);
      }
    }
    if n < |p.frontier| {
      AddedFacts(s, p, s.frontier[index]);
      var q := p.frontier[n];
      assert q in Unvisited(s);
      assert r.At(q) == VISITED;
      assert q !in Unvisited(r);
    }
  }

  /** Random.Next(0, n) returns an index below n; `rand(k, n)` is the k-th draw. */
  ghost predicate DrawsInRange(rand: (nat, nat) -> nat)
  {
    forall k: nat, n: nat :: 0 < n ==> rand(k, n) < n
  }

  /** The Run loop from its k-th iteration on. */
  function Generate(s: State, rand: (nat, nat) -> nat, k: nat): (r: State)
    requires Valid(s) && DrawsInRange(rand)
    ensures Valid(r) && r.width == s.width && r.height == s.height
    ensures r.frontier == []
    ensures forall q :: r.InBounds(q) ==> r.At(q) != VISITED
    ensures Grown(s, r)
    decreases Unvisited(s), |s.frontier|
  {
    if |s.frontier| == 0 then s
    else
      var index := rand(k, |s.frontier|);
      IterateKeepsValid(s, index);
      IterateShrinks(s, index);
      IterateGrown(s, index);
      Generate(Iterate(s, index), rand, k + 1)
  }

  lemma IterateGrown(s: State, index: nat)
    requires Valid(s) && index < |s.frontier|
    ensures Grown(s, Iterate(s, index))
  {
    var pos := s.frontier[index];
    ProcessEffect(s, pos);
    StepCodes(s, Process(s, pos), pos);
  }

  /** One iteration of the Run loop as Generate takes it: the drawn index is in
      range, the next state is valid and lower in the termination order, and
      the rest of the run goes on from it. */
  lemma GenerateStep(s: State, rand: (nat, nat) -> nat, k: nat, index: nat)
    requires Valid(s) && DrawsInRange(rand) && |s.frontier| > 0 && index == rand(k, |s.frontier|)
    ensures index < |s.frontier| && Valid(Iterate(s, index)) && Below(Iterate(s, index), s)
    ensures Generate(s, rand, k) == Generate(Iterate(s, index), rand, k + 1)
  {
    IterateKeepsValid(s, index);
    IterateShrinks(s, index);
  }

  /** The state the constructor hands to Run: a fresh all-unvisited grid and the
      start position as the only frontier entry. */
  function Initial(width: nat, height: nat, start: Pos): (r: State)
    ensures r.WellFormed() && r.width == width && r.height == height && r.frontier == [start]
    ensures forall q :: r.InBounds(q) ==> r.At(q) == UNVISITED
  {
    State(width, height, seq(height, _ => seq(width, _ => UNVISITED)), [start])
  }

  lemma InitialValid(width: nat, height: nat, start: Pos)
    requires 0 <= start.x < width && 0 <= start.y < height
    ensures Valid(Initial(width, height, start))
  {
  }

  /** `q` lies on the lattice of `start`: both coordinates differ from the
      start's by an even amount.  Process only ever moves two steps, so the
      frontier stays on this lattice and walls only appear off it. */
  predicate Lattice(start: Pos, q: Pos)
  {
    (q.x - start.x) % 2 == 0 && (q.y - start.y) % 2 == 0
  }

  /** The invariant behind coverage: frontier entries lie on the lattice, no
      lattice cell is a wall, the two-step neighbours of a lattice path cell are
      all reached, and the start is a path or still waiting in the frontier. */
  ghost predicate Reach(start: Pos, s: State)
    requires s.WellFormed()
  {
    && s.InBounds(start)
    && (forall i :: 0 <= i < |s.frontier| ==> Lattice(start, s.frontier[i]))
    && (forall q :: s.InBounds(q) && Lattice(start, q) ==> s.At(q) != WALL)
    && (forall q, n :: s.InBounds(q) && Lattice(start, q) && s.At(q) == PATH && s.InBounds(n) && TwoStep(q, n) ==>
          s.At(n) != UNVISITED)
    && (s.At(start) == PATH || start in s.frontier)
  }

  lemma LatticeSteps(start: Pos, pos: Pos, q: Pos)
    requires Lattice(start, pos)
    ensures TwoStep(pos, q) ==> Lattice(start, q)
    ensures OneStep(pos, q) ==> !Lattice(start, q)
  {
  }

  lemma InitialReach(width: nat, height: nat, start: Pos)
    requires 0 <= start.x < width && 0 <= start.y < height
    ensures Reach(start, Initial(width, height, start))
  {
  }

  /** Every iteration of the Run loop preserves Reach. */
  lemma IterateKeepsReach(s: State, index: nat, start: Pos)
    requires Valid(s) && Reach(start, s) && index < |s.frontier|
    ensures Reach(start, Iterate(s, index))
  {
    var pos := s.frontier[index];
    ProcessEffect(s, pos);
    StepKeepsReach(s, index, Process(s, pos), start);
  }

  lemma StepKeepsReach(s: State, index: nat, p: State, start: Pos)
    requires Valid(s) && Reach(start, s) && index < |s.frontier| && ProcessSpec(s, p, s.frontier[index])
    ensures Reach(start, p.(frontier := RemoveAt(p.frontier, index)))
  {
    StepCodes(s, p, s.frontier[index]);
    RemoveBeforeAppended(s.frontier, p.frontier, index);
    StepReachFrontier(s, index, p, start);
    StepReachCells(s, index, p, start);
  }

  /** The frontier stays on the lattice and keeps the start until it is processed. */
  lemma StepReachFrontier(s: State, index: nat, p: State, start: Pos)
    requires Valid(s) && Reach(start, s) && index < |s.frontier| && ProcessSpec(s, p, s.frontier[index])
    requires Grown(s, p)
    requires RemoveAt(p.frontier, index) == RemoveAt(s.frontier, index) + p.frontier[|s.frontier|..]
    ensures var r := p.(frontier := RemoveAt(p.frontier, index));
      && (forall i :: 0 <= i < |r.frontier| ==> Lattice(start, r.frontier[i]))
      && (r.At(start) == PATH || start in r.frontier)
  {
    var pos := s.frontier[index];
    AddedFacts(s, p, pos);
    LatticeKept(start, s.frontier, p.frontier, index);
    if start != pos && start in s.frontier {
      StartKept(start, s.frontier, p.frontier, index);
    }
  }

  /** The frontier after an iteration stays on the start's lattice: the kept
      entries were on it, and the added ones are two steps from the processed one. */
  lemma LatticeKept(start: Pos, before: seq<Pos>, after: seq<Pos>, index: nat)
    requires index < |before| <= |after|
    requires forall i :: 0 <= i < |before| ==> Lattice(start, before[i])
    requires forall i :: |before| <= i < |after| ==> TwoStep(before[index], after[i])
    requires RemoveAt(after, index) == RemoveAt(before, index) + after[|before|..]
    ensures forall i :: 0 <= i < |RemoveAt(after, index)| ==> Lattice(start, RemoveAt(after, index)[i])
  {
    var kept := RemoveAt(before, index);
    var r := RemoveAt(after, index);
    forall i | 0 <= i < |r| ensures Lattice(start, r[i]) {
      if i < |kept| {
        assert r[i] == before[if i < index then i else i + 1];
      } else {
        assert r[i] == after[|before| + i - |kept|];
        LatticeSteps(start, before[index], r[i]);
      }
    }
  }

  /** An entry of the old frontier other than the processed one is still listed. */
  lemma StartKept(start: Pos, before: seq<Pos>, after: seq<Pos>, index: nat)
    requires index < |before| <= |after| && start in before && start != before[index]
    requires RemoveAt(after, index) == RemoveAt(before, index) + after[|before|..]
    ensures start in RemoveAt(after, index)
  {
    var kept := RemoveAt(before, index);
    var j :| 0 <= j < |before| && before[j] == start;
    if j < index { assert kept[j] == start; } else { assert kept[j - 1] == start; }
  }

  /** No lattice cell becomes a wall, and the closure of lattice path cells survives. */
  lemma StepReachCells(s: State, index: nat, p: State, start: Pos)
    requires Valid(s) && Reach(start, s) && index < |s.frontier| && ProcessSpec(s, p, s.frontier[index])
    requires Grown(s, p)
    ensures forall q :: p.InBounds(q) && Lattice(start, q) ==> p.At(q) != WALL
    ensures forall q, m :: p.InBounds(q) && Lattice(start, q) && p.At(q) == PATH && p.InBounds(m) && TwoStep(q, m) ==>
      p.At(m) != UNVISITED
  {
    var pos := s.frontier[index];
    assert Lattice(start, pos);
    forall q | p.InBounds(q) && Lattice(start, q)
      ensures p.At(q) != WALL
      ensures p.At(q) == PATH ==> q == pos || s.At(q) == PATH
    {
      LatticeSteps(start, pos, q);
    }
    forall q, m | p.InBounds(q) && Lattice(start, q) && p.At(q) == PATH && p.InBounds(m) && TwoStep(q, m)
      ensures p.At(m) != UNVISITED
    {
      if q != pos {
        assert s.At(m) != UNVISITED;
      }
    }
  }

  /** In every state of a run from the constructor (each satisfies Valid and
      Reach), no in-range cell two steps from a frontier entry is a wall.
      WallBranchDead combines this with TargetsRead. */
  lemma TargetNotWall(s: State, start: Pos, index: nat, q: Pos)
    requires Valid(s) && Reach(start, s) && index < |s.frontier|
    requires s.InBounds(q) && TwoStep(s.frontier[index], q)
    ensures s.At(q) != WALL
  {
    LatticeSteps(start, s.frontier[index], q);
  }

  /** The wall branch of BuildMazeX and BuildMazeY is never taken in a run from
      the constructor: in each directional step of an iteration, the in-range
      target that the step reads is not a wall. */
  lemma WallBranchDead(s: State, start: Pos, index: nat, s0: State, s1: State, s2: State, s3: State)
    requires Valid(s) && Reach(start, s) && index < |s.frontier|
    requires s0 == s.Write(s.frontier[index], PATH) && s1 == LeftStep(s0, s.frontier[index])
    requires s2 == RightStep(s1, s.frontier[index]) && s3 == UpStep(s2, s.frontier[index])
    ensures var p := s.frontier[index];
      && (s.InBounds(Pos(p.x - 2, p.y)) ==> s0.At(Pos(p.x - 2, p.y)) != WALL)
      && (s.InBounds(Pos(p.x + 2, p.y)) ==> s1.At(Pos(p.x + 2, p.y)) != WALL)
      && (s.InBounds(Pos(p.x, p.y - 2)) ==> s2.At(Pos(p.x, p.y - 2)) != WALL)
      && (s.InBounds(Pos(p.x, p.y + 2)) ==> s3.At(Pos(p.x, p.y + 2)) != WALL)
  {
    var p := s.frontier[index];
    forall q | s.InBounds(q) && TwoStep(p, q) ensures s.At(q) != WALL {
      TargetNotWall(s, start, index, q);
    }
    ReadsNotWall(s, p, s0, s1, s2, s3);
  }

  /** When no two-step cell of `pos` is a wall, no directional step reads a wall. */
  lemma ReadsNotWall(s: State, pos: Pos, s0: State, s1: State, s2: State, s3: State)
    requires s.WellFormed() && s.InBounds(pos)
    requires s0 == s.Write(pos, PATH) && s1 == LeftStep(s0, pos)
    requires s2 == RightStep(s1, pos) && s3 == UpStep(s2, pos)
    requires forall q :: s.InBounds(q) && TwoStep(pos, q) ==> s.At(q) != WALL
    ensures s.InBounds(Pos(pos.x - 2, pos.y)) ==> s0.At(Pos(pos.x - 2, pos.y)) != WALL
    ensures s.InBounds(Pos(pos.x + 2, pos.y)) ==> s1.At(Pos(pos.x + 2, pos.y)) != WALL
    ensures s.InBounds(Pos(pos.x, pos.y - 2)) ==> s2.At(Pos(pos.x, pos.y - 2)) != WALL
    ensures s.InBounds(Pos(pos.x, pos.y + 2)) ==> s3.At(Pos(pos.x, pos.y + 2)) != WALL
  {
    TargetsRead(s, pos, s0, s1, s2, s3);
    assert TwoStep(pos, Pos(pos.x - 2, pos.y)) && TwoStep(pos, Pos(pos.x + 2, pos.y));
    assert TwoStep(pos, Pos(pos.x, pos.y - 2)) && TwoStep(pos, Pos(pos.x, pos.y + 2));
  }

  /** Whatever every iteration of the Run loop preserves, the whole run preserves. */
  lemma {:induction false} GenerateInduction(s: State, rand: (nat, nat) -> nat, k: nat, inv: State -> bool)
    requires Valid(s) && DrawsInRange(rand) && inv(s)
    requires forall t: State, i: nat :: Valid(t) && inv(t) && i < |t.frontier| ==> inv(Iterate(t, i))
    ensures inv(Generate(s, rand, k))
    decreases Unvisited(s), |s.frontier|
  {
    if |s.frontier| != 0 {
      var index := rand(k, |s.frontier|);
      IterateKeepsValid(s, index);
      IterateShrinks(s, index);
      GenerateInduction(Iterate(s, index), rand, k + 1, inv);
    }
  }

  /** Generate preserves Reach. */
  lemma GenerateKeepsReach(s: State, rand: (nat, nat) -> nat, k: nat, start: Pos)
    requires Valid(s) && DrawsInRange(rand) && Reach(start, s)
    ensures Reach(start, Generate(s, rand, k))
  {
    var inv := (t: State) => t.WellFormed() && Reach(start, t);
    forall t: State, i: nat | Valid(t) && inv(t) && i < |t.frontier| ensures inv(Iterate(t, i)) {
      IterateKeepsReach(t, i, start);
    }
    GenerateInduction(s, rand, k, inv);
  }

  /** From `q`, the cell two steps away through its neighbour `m` is open when
      both are in range and `m` is a path. */
  ghost predicate Open(s: State, q: Pos, m: Pos)
    requires s.WellFormed()
  {
    OneStep(q, m) && s.InBounds(m) && s.InBounds(Beyond(q, m)) && s.At(m) == PATH
  }

  /** `q` leads to `start` in at most `n` open hops of two cells each. */
  ghost predicate Linked(s: State, start: Pos, q: Pos, n: nat)
    requires s.WellFormed()
    decreases n
  {
    q == start || (n > 0 && exists m :: Open(s, q, m) && Linked(s, start, Beyond(q, m), n - 1))
  }

  /** `q` leads to `start` by some finite number of open hops. */
  ghost predicate Joined(s: State, start: Pos, q: Pos)
    requires s.WellFormed()
  {
    exists n: nat :: Linked(s, start, q, n)
  }

  /** The invariant behind connectivity: every reached lattice cell, and every
      frontier entry, leads back to the start through open passages. */
  ghost predicate Connected(start: Pos, s: State)
    requires s.WellFormed()
  {
    forall q :: s.InBounds(q) && Lattice(start, q) && (s.At(q) != UNVISITED || q in s.frontier) ==>
      Joined(s, start, q)
  }

  /** One open hop from `q` through `m` to a linked cell links `q`. */
  lemma LinkHop(s: State, start: Pos, q: Pos, m: Pos, n: nat)
    requires s.WellFormed() && Open(s, q, m) && Linked(s, start, Beyond(q, m), n)
    ensures Linked(s, start, q, n + 1)
  {
  }

  /** Links survive any change that keeps every path cell a path. */
  lemma {:induction false} LinkedGrown(s: State, r: State, start: Pos, q: Pos, n: nat)
    requires s.WellFormed() && r.WellFormed() && r.width == s.width && r.height == s.height
    requires Grown(s, r) && Linked(s, start, q, n)
    ensures Linked(r, start, q, n)
    decreases n
  {
    if q != start {
      var m :| Open(s, q, m) && Linked(s, start, Beyond(q, m), n - 1);
      LinkedGrown(s, r, start, Beyond(q, m), n - 1);
      assert Open(r, q, m);
    }
  }

  lemma InitialConnected(width: nat, height: nat, start: Pos)
    requires 0 <= start.x < width && 0 <= start.y < height
    ensures Connected(start, Initial(width, height, start))
  {
    assert Linked(Initial(width, height, start), start, start, 0);
    assert Joined(Initial(width, height, start), start, start);
  }

  /** Every iteration of the Run loop preserves Connected. */
  lemma IterateKeepsConnected(s: State, index: nat, start: Pos)
    requires Valid(s) && Reach(start, s) && Connected(start, s) && index < |s.frontier|
    ensures Connected(start, Iterate(s, index))
  {
    var pos := s.frontier[index];
    ProcessEffect(s, pos);
    StepCodes(s, Process(s, pos), pos);
    RemoveBeforeAppended(s.frontier, Process(s, pos).frontier, index);
    StepKeepsConnected(s, index, Process(s, pos), start);
  }

  /** The same, for any `p` that does what Process promises: a cell reached in
      this iteration is a target whose cell between is now a path, and the
      processed entry it hangs from was already linked. */
  lemma StepKeepsConnected(s: State, index: nat, p: State, start: Pos)
    requires Valid(s) && Reach(start, s) && Connected(start, s) && index < |s.frontier|
    requires ProcessSpec(s, p, s.frontier[index]) && Grown(s, p)
    requires RemoveAt(p.frontier, index) == RemoveAt(s.frontier, index) + p.frontier[|s.frontier|..]
    ensures Connected(start, p.(frontier := RemoveAt(p.frontier, index)))
  {
    var pos := s.frontier[index];
    var r := p.(frontier := RemoveAt(p.frontier, index));
    assert Lattice(start, pos);
    assert Grown(s, r) by {
      forall q | s.InBounds(q) ensures r.At(q) == p.At(q) { }
    }
    assert Joined(s, start, pos);
    var k: nat :| Linked(s, start, pos, k);
    LinkedGrown(s, r, start, pos, k);
    forall q | r.InBounds(q) && Lattice(start, q) && (r.At(q) != UNVISITED || q in r.frontier)
      ensures Joined(r, start, q)
    {
      if s.At(q) != UNVISITED || q in s.frontier {
        assert Joined(s, start, q);
        var n: nat :| Linked(s, start, q, n);
        LinkedGrown(s, r, start, q, n);
      } else {
        NewlyReached(s, index, p, start, q);
        LinkNew(s, p, r, pos, start, q, k);
      }
    }
  }

  /** A target that was unvisited hangs from the processed cell: the cell
      between them is now a path. */
  lemma LinkNew(s: State, p: State, r: State, pos: Pos, start: Pos, q: Pos, k: nat)
    requires s.WellFormed() && s.InBounds(pos) && ProcessSpec(s, p, pos)
    requires r.WellFormed() && r.grid == p.grid && r.width == p.width && r.height == p.height
    requires s.InBounds(q) && TwoStep(pos, q) && s.At(q) == UNVISITED
    requires Linked(r, start, pos, k)
    ensures Linked(r, start, q, k + 1)
  {
    var m := Pos(pos.x + (q.x - pos.x) / 2, pos.y + (q.y - pos.y) / 2);
    assert OneStep(pos, m) && Beyond(pos, m) == q && OneStep(q, m) && Beyond(q, m) == pos;
    assert r.At(m) == p.At(m) == PATH;
    LinkHop(r, start, q, m, k);
  }

  /** A lattice cell that one iteration reaches for the first time is a two-step
      cell of the processed entry that was unvisited. */
  lemma NewlyReached(s: State, index: nat, p: State, start: Pos, q: Pos)
    requires Valid(s) && Reach(start, s) && index < |s.frontier| && ProcessSpec(s, p, s.frontier[index])
    requires RemoveAt(p.frontier, index) == RemoveAt(s.frontier, index) + p.frontier[|s.frontier|..]
    requires s.InBounds(q) && Lattice(start, q) && s.At(q) == UNVISITED && q !in s.frontier
    requires p.At(q) != UNVISITED || q in RemoveAt(p.frontier, index)
    ensures TwoStep(s.frontier[index], q)
  {
    var pos := s.frontier[index];
    assert Lattice(start, pos);
    LatticeSteps(start, pos, q);
    if q in RemoveAt(p.frontier, index) {
      KeptFacts(s, index);
      AddedFacts(s, p, pos);
      var kept := RemoveAt(s.frontier, index);
      var added := p.frontier[|s.frontier|..];
      assert q !in kept by {
        forall j | 0 <= j < |kept| ensures kept[j] != q { }
      }
      var j :| 0 <= j < |added| && added[j] == q;
      assert added[j] == p.frontier[|s.frontier| + j];
    }
  }

  /** Generate preserves Connected. */
  lemma GenerateKeepsConnected(s: State, rand: (nat, nat) -> nat, k: nat, start: Pos)
    requires Valid(s) && DrawsInRange(rand) && Reach(start, s) && Connected(start, s)
    ensures Connected(start, Generate(s, rand, k))
  {
    var inv := (t: State) => t.WellFormed() && Reach(start, t) && Connected(start, t);
    forall t: State, i: nat | Valid(t) && inv(t) && i < |t.frontier| ensures inv(Iterate(t, i)) {
      IterateKeepsReach(t, i, start);
      IterateKeepsConnected(t, i, start);
    }
    GenerateInduction(s, rand, k, inv);
  }

  /** Once the frontier is empty, Reach forces every in-range lattice cell to be
      a path: walk from `q` towards the start two steps at a time. */
  lemma {:induction false} ReachAll(s: State, start: Pos, q: Pos)
    requires Valid(s) && Reach(start, s) && s.frontier == []
    requires s.InBounds(q) && Lattice(start, q)
    ensures s.At(q) == PATH
    decreases (if q.x < start.x then start.x - q.x else q.x - start.x) +
              (if q.y < start.y then start.y - q.y else q.y - start.y)
  {
    if q != start {
      var q' := if q.x < start.x then Pos(q.x + 2, q.y)
                else if q.x > start.x then Pos(q.x - 2, q.y)
                else if q.y < start.y then Pos(q.x, q.y + 2)
                else Pos(q.x, q.y - 2);
      LatticeSteps(start, q, q');
      ReachAll(s, start, q');
      assert TwoStep(q', q);
      assert s.At(q) != UNVISITED;
    }
  }

  /** The maze reaches every cell of the start's lattice: after the whole run
      from the initial state, each in-range cell whose coordinates differ from
      the start's by even amounts is a path. */
  lemma GenerateCovers(width: nat, height: nat, start: Pos, rand: (nat, nat) -> nat)
    requires 0 <= start.x < width && 0 <= start.y < height && DrawsInRange(rand)
    ensures Valid(Initial(width, height, start))
    ensures var r := Generate(Initial(width, height, start), rand, 0);
      forall q :: r.InBounds(q) && Lattice(start, q) ==> r.At(q) == PATH
  {
    InitialValid(width, height, start);
    InitialReach(width, height, start);
    var r := Generate(Initial(width, height, start), rand, 0);
    GenerateKeepsReach(Initial(width, height, start), rand, 0, start);
    forall q | r.InBounds(q) && Lattice(start, q) ensures r.At(q) == PATH {
      ReachAll(r, start, q);
    }
  }

  /** Once every lattice cell is reached, Connected links each of them. */
  lemma ConnectedAll(start: Pos, r: State)
    requires r.WellFormed() && Connected(start, r)
    requires forall q :: r.InBounds(q) && Lattice(start, q) ==> r.At(q) == PATH
    ensures forall q :: r.InBounds(q) && Lattice(start, q) ==> Joined(r, start, q)
  {
    forall q | r.InBounds(q) && Lattice(start, q) ensures Joined(r, start, q) {
      assert r.At(q) != UNVISITED;
    }
  }

  /** The passages join the whole lattice to the start: after the whole run from
      the initial state, every in-range lattice cell leads back to the start by
      hops of two cells, each through a path cell, between lattice cells that
      are all paths. */
  lemma GenerateConnects(width: nat, height: nat, start: Pos, rand: (nat, nat) -> nat)
    requires 0 <= start.x < width && 0 <= start.y < height && DrawsInRange(rand)
    ensures Valid(Initial(width, height, start))
    ensures var r := Generate(Initial(width, height, start), rand, 0);
      forall q :: r.InBounds(q) && Lattice(start, q) ==> Joined(r, start, q)
  {
    InitialValid(width, height, start);
    InitialReach(width, height, start);
    InitialConnected(width, height, start);
    GenerateCovers(width, height, start, rand);
    GenerateKeepsConnected(Initial(width, height, start), rand, 0, start);
    ConnectedAll(start, Generate(Initial(width, height, start), rand, 0));
  }
}
