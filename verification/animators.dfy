/** BFSAnimator and DFSAnimator as the one engine with a fixed removal
    discipline. Both append discoveries at the back of the frontier; BFS
    takes from the front (`popleft`), DFS from the back (`pop`). */
module Animators {

  import opened Grids
  import opened SeqUtil
  import opened ParentChain
  import opened Engine
  import opened EngineInvariants

  datatype Animator = BFSAnimator | DFSAnimator

  /** The end of the frontier each class removes from. */
  function DisciplineOf(a: Animator): (d: Discipline)
    ensures d == FIFO <==> a == BFSAnimator
  {
    match a
    case BFSAnimator => FIFO
    case DFSAnimator => LIFO
  }

  /** A BFS `step` that does not reach the end expands the oldest frontier
      entry and queues its unseen neighbours behind the others. */
  lemma BfsTakesOldest(p: GridView, s: State)
    requires Valid(p) && Inv(p, s) && !s.finished && |s.frontier| > 0
    requires s.frontier[0] != p.end
    ensures Step(p, DisciplineOf(BFSAnimator), s).frontier ==
              s.frontier[1..] + FirstUnseen(p.neighbors(s.frontier[0]), s.visited)
    ensures Removed(Step(p, DisciplineOf(BFSAnimator), s)) == Removed(s) + {s.frontier[0]}
    ensures !Step(p, DisciplineOf(BFSAnimator), s).finished
  {
    ExpandStep(p, FIFO, s);
  }

  /** A DFS `step` that does not reach the end expands the newest frontier
      entry and pushes its unseen neighbours on top of the others. */
  lemma DfsTakesNewest(p: GridView, s: State)
    requires Valid(p) && Inv(p, s) && !s.finished && |s.frontier| > 0
    requires s.frontier[|s.frontier| - 1] != p.end
    ensures Step(p, DisciplineOf(DFSAnimator), s).frontier ==
              s.frontier[..|s.frontier| - 1] + FirstUnseen(p.neighbors(s.frontier[|s.frontier| - 1]), s.visited)
    ensures Removed(Step(p, DisciplineOf(DFSAnimator), s)) == Removed(s) + {s.frontier[|s.frontier| - 1]}
    ensures !Step(p, DisciplineOf(DFSAnimator), s).finished
  {
    ExpandStep(p, LIFO, s);
  }

  /** Apart from which entry is removed the two classes are the same: when
      the frontier holds a single coordinate, their steps agree. */
  lemma SameStepOnSingleEntry(p: GridView, s: State)
    requires |s.frontier| == 1
    requires !s.finished && s.frontier[0] == p.end ==> WalkEnds(s.parent, p.end, |s.parent|)
    ensures Step(p, DisciplineOf(BFSAnimator), s) == Step(p, DisciplineOf(DFSAnimator), s)
  {
    assert Take(FIFO, s.frontier) == Take(LIFO, s.frontier);
  }

}
