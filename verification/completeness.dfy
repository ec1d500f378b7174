/** Why a search that finishes without removing the end means the end is
    unreachable: every removed coordinate other than the end has had all
    its neighbours discovered, so the empty frontier such a search ends
    with leaves no route from the start unexplored. */
module Completeness {

  import opened Grids
  import opened SeqUtil
  import opened ParentChain
  import opened Engine
  import opened EngineInvariants
  import opened Termination

  /** A route from the start to the end through the neighbour query: each
      coordinate is in the neighbour list of the one before it. */
  ghost predicate Route(p: GridView, route: seq<Coord>)
  {
    && |route| > 0
    && route[0] == p.start
    && route[|route| - 1] == p.end
    && forall i :: 0 <= i < |route| - 1 ==> route[i + 1] in p.neighbors(route[i])
  }

  ghost predicate Reachable(p: GridView)
  {
    exists route :: Route(p, route)
  }

  /** What the search has covered, besides Inv:
      - the start has been discovered;
      - every removed coordinate other than the end has all its
        neighbours discovered;
      - a search that finished without removing the end ran out of
        frontier. */
  ghost predicate Explored(p: GridView, s: State)
  {
    && p.start in s.visited
    && (forall c, i :: c in Removed(s) && c != p.end && 0 <= i < |p.neighbors(c)| ==>
          p.neighbors(c)[i] in s.visited)
    && (s.finished && p.end !in Removed(s) ==> s.frontier == [])
  }

  /** start_search begins with nothing removed. */
  lemma StartSearchExplored(p: GridView, s: State)
    requires Valid(p)
    ensures Explored(p, StartSearch(p, s))
  {
    StartSearchConsistent(p, s);
  }

  /** A `step` that removes the end keeps Explored: nothing new needs
      its neighbours discovered, and the end is now removed. */
  lemma GoalStepExplored(p: GridView, d: Discipline, s: State)
    requires Inv(p, s) && Explored(p, s) && !s.finished && |s.frontier| > 0
    requires Take(d, s.frontier).0 == p.end
    ensures Explored(p, Step(p, d, s))
  {
    GoalStep(p, d, s);
    assert Step(p, d, s).visited == s.visited;
  }

  /** A `step` that expands `cur` keeps Explored: its neighbour loop has
      just discovered all of `cur`'s neighbours. */
  lemma ExpandStepExplored(p: GridView, d: Discipline, s: State)
    requires Valid(p) && Inv(p, s) && Explored(p, s) && !s.finished && |s.frontier| > 0
    requires Take(d, s.frontier).0 != p.end
    ensures Explored(p, Step(p, d, s))
  {
    var cur := Take(d, s.frontier).0;
    var r := Step(p, d, s);
    ExpandStep(p, d, s);
    forall c, i | c in Removed(r) && c != p.end && 0 <= i < |p.neighbors(c)|
      ensures p.neighbors(c)[i] in r.visited
    {
      if c == cur {
        assert p.neighbors(c)[i] in Elems(p.neighbors(c));
      }
    }
  }

  /** Every `step` keeps Explored. */
  lemma StepExplored(p: GridView, d: Discipline, s: State)
    requires Valid(p) && Inv(p, s) && Explored(p, s)
    ensures Explored(p, Step(p, d, s))
  {
    if !s.finished && |s.frontier| > 0 {
      if Take(d, s.frontier).0 == p.end {
        GoalStepExplored(p, d, s);
      } else {
        ExpandStepExplored(p, d, s);
      }
    }
  }

  /** The driver's steps keep Explored. */
  lemma {:induction false} RunExplored(p: GridView, d: Discipline, s: State, n: nat)
    requires Valid(p) && Inv(p, s) && Explored(p, s)
    ensures Explored(p, Run(p, d, s, n))
    decreases n
  {
    if n > 0 {
      StepInv(p, d, s);
      StepExplored(p, d, s);
      RunExplored(p, d, Step(p, d, s), n - 1);
    }
  }

  /** Soundness: once the end is discovered, the parent walk back from it,
      read backwards, is a route from the start to the end. */
  lemma DiscoveredIsReachable(p: GridView, s: State)
    requires Inv(p, s) && p.end in s.visited
    ensures Reachable(p)
  {
    var w := Walk(s.parent, p.end, |s.parent|);
    PathShape(p, s);
    var route := seq(|w|, i requires 0 <= i < |w| => w[|w| - 1 - i]);
    forall i | 0 <= i < |route| - 1
      ensures route[i + 1] in p.neighbors(route[i])
    {
      var j := |w| - 2 - i;
      assert route[i] == w[j + 1] && route[i + 1] == w[j];
    }
    assert Route(p, route);
  }

  /** Completeness: when the frontier is empty, every route from the start
      ends at a discovered coordinate, so the end has been discovered. */
  lemma ExhaustionCoversRoutes(p: GridView, s: State, route: seq<Coord>)
    requires Explored(p, s) && s.frontier == [] && Route(p, route)
    ensures p.end in s.visited
  {
    assert Removed(s) == s.visited;
    var i := 0;
    while i < |route| - 1
      invariant 0 <= i < |route|
      invariant route[i] in s.visited || p.end in s.visited
    {
      if route[i] != p.end && route[i] in s.visited {
        var nbs := p.neighbors(route[i]);
        assert route[i + 1] in nbs;
        var j :| 0 <= j < |nbs| && nbs[j] == route[i + 1];
      }
      i := i + 1;
    }
  }

  /** A concluded search has discovered, and removed, the end iff some
      route leads from the start to the end. */
  lemma ConcludedIffReachable(p: GridView, r: State)
    requires Inv(p, r) && Explored(p, r) && r.finished
    ensures p.end in Removed(r) <==> Reachable(p)
    ensures p.end in r.visited <==> Reachable(p)
  {
    if p.end in r.visited {
      DiscoveredIsReachable(p, r);
    }
    if p.end !in Removed(r) {
      assert Removed(r) == r.visited;
      if Reachable(p) {
        var route :| Route(p, route);
        ExhaustionCoversRoutes(p, r, route);
      }
    }
  }

  /** Steps that finish the search leave it concluded as above. */
  lemma RunConcludes(p: GridView, d: Discipline, s: State, n: nat)
    requires Valid(p) && Inv(p, s) && Explored(p, s)
    requires Run(p, d, s, n).finished
    ensures p.end in Removed(Run(p, d, s, n)) <==> Reachable(p)
    ensures p.end in Run(p, d, s, n).visited <==> Reachable(p)
  {
    RunExplored(p, d, s, n);
    ConcludedIffReachable(p, Run(p, d, s, n));
  }

  /** A search run to the end, BFS or DFS, finishes, and it has discovered
      (and removed) the end iff some route leads from the start to the end.
      So a walled-off end is exactly the case that finishes without
      removing the end; that search ends with an empty frontier and no
      `in_path` cell. */
  lemma SearchFindsIffReachable(p: GridView, d: Discipline, s: State)
    requires Valid(p)
    ensures Inv(p, StartSearch(p, s))
    ensures Run(p, d, StartSearch(p, s), Budget(p)).finished
    ensures p.end in Removed(Run(p, d, StartSearch(p, s), Budget(p))) <==> Reachable(p)
    ensures p.end in Run(p, d, StartSearch(p, s), Budget(p)).visited <==> Reachable(p)
    ensures !Reachable(p) ==>
              && Run(p, d, StartSearch(p, s), Budget(p)).frontier == []
              && Run(p, d, StartSearch(p, s), Budget(p)).marks.inPath == {}
  {
    SearchFinishes(p, d, s);
    StartSearchExplored(p, s);
    RunConcludes(p, d, StartSearch(p, s), Budget(p));
    StartSearchConsistent(p, s);
    RunConsistent(p, d, StartSearch(p, s), Budget(p));
    RunExplored(p, d, StartSearch(p, s), Budget(p));
  }

}
