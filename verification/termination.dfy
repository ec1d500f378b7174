/** Why the animation stops: each `step` that does not finish removes one
    coordinate for good, and there are only rows * cols of them. */
module Termination {

  import opened Grids
  import opened Engine
  import opened EngineInvariants

  /** An upper bound on the steps left before `finished`: none once
      finished, otherwise one more than the grid cells not yet removed. */
  function Measure(p: GridView, s: State): nat
  {
    if s.finished then 0 else |Universe(p.rows, p.cols) - Removed(s)| + 1
  }

  /** Every removed coordinate is a cell, so at most rows * cols of them are
      ever removed. */
  lemma RemovedBound(p: GridView, s: State)
    requires Inv(p, s)
    ensures Removed(s) <= Universe(p.rows, p.cols)
    ensures |Removed(s)| <= Count(p.rows) * Count(p.cols)
  {
    forall c | c in Removed(s)
      ensures c in Universe(p.rows, p.cols)
    {
      InUniverse(c, p.rows, p.cols);
    }
    SeqUtil.SubsetCard(Removed(s), Universe(p.rows, p.cols));
    UniverseSize(p.rows, p.cols);
  }

  /** Removing one more element of `u` leaves one fewer unremoved. */
  lemma DiffShrinks(u: set<Coord>, a: set<Coord>, x: Coord)
    requires x in u && x !in a
    ensures |u - (a + {x})| == |u - a| - 1
  {
    assert u - (a + {x}) == (u - a) - {x};
  }

  /** A `step` from an unfinished state lowers the measure. */
  lemma StepDecreases(p: GridView, d: Discipline, s: State)
    requires Valid(p) && Inv(p, s) && !s.finished
    ensures Measure(p, Step(p, d, s)) < Measure(p, s)
  {
    if |s.frontier| > 0 && Take(d, s.frontier).0 != p.end {
      var cur := Take(d, s.frontier).0;
      ExpandStep(p, d, s);
      assert cur in s.visited by {
        EngineInvariants.TakeSplit(d, s.frontier);
        assert cur in SeqUtil.Elems(s.frontier);
      }
      InUniverse(cur, p.rows, p.cols);
      DiffShrinks(Universe(p.rows, p.cols), Removed(s), cur);
    }
  }

  /** `n` calls of `step`, as the driver makes one per frame. */
  function Run(p: GridView, d: Discipline, s: State, n: nat): (r: State)
    requires Valid(p) && Inv(p, s)
    ensures Inv(p, r)
    decreases n
  {
    if n == 0 then s
    else
      InvWalkEnds(p, s);
      StepInv(p, d, s);
      Run(p, d, Step(p, d, s), n - 1)
  }

  /** The driver's steps keep the grid's flags in agreement with the
      engine. */
  lemma {:induction false} RunConsistent(p: GridView, d: Discipline, s: State, n: nat)
    requires Valid(p) && Consistent(p, s)
    ensures Consistent(p, Run(p, d, s, n))
    decreases n
  {
    if n > 0 {
      StepConsistent(p, d, s);
      RunConsistent(p, d, Step(p, d, s), n - 1);
    }
  }

  /** As many steps as the measure allows are enough to finish. */
  lemma {:induction false} RunFinishes(p: GridView, d: Discipline, s: State, n: nat)
    requires Valid(p) && Inv(p, s) && Measure(p, s) <= n
    ensures Run(p, d, s, n).finished
    decreases n
  {
    if n > 0 {
      InvWalkEnds(p, s);
      StepInv(p, d, s);
      if !s.finished {
        StepDecreases(p, d, s);
      }
      RunFinishes(p, d, Step(p, d, s), n - 1);
    }
  }

  /** The number of steps SearchFinishes allows: one per cell, plus one. */
  function Budget(p: GridView): nat
    requires Valid(p)
  {
    assert p.rows > 0 && p.cols > 0;
    p.rows * p.cols + 1
  }

  /** After start_search, rows * cols + 1 steps finish the search, for BFS
      and DFS alike. */
  lemma SearchFinishes(p: GridView, d: Discipline, s: State)
    requires Valid(p)
    ensures Inv(p, StartSearch(p, s))
    ensures Run(p, d, StartSearch(p, s), Budget(p)).finished
  {
    var s0 := StartSearch(p, s);
    StartSearchConsistent(p, s);
    UniverseSize(p.rows, p.cols);
    assert Universe(p.rows, p.cols) - Removed(s0) == Universe(p.rows, p.cols);
    RunFinishes(p, d, s0, Budget(p));
  }

}
