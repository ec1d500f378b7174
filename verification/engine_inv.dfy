/** What every state the engine reaches satisfies, and what one `step`
    does to it (algorithms.py, BFSAnimator / DFSAnimator). */
module EngineInvariants {

  import opened Optional
  import opened Grids
  import opened SeqUtil
  import opened ParentChain
  import opened Engine

  /** The coordinates removed from the frontier so far: discovered, no
      longer waiting. */
  function Removed(s: State): set<Coord>
  {
    s.visited - Elems(s.frontier)
  }

  /** The engine's own fields:
      - every visited coordinate is a cell of the grid;
      - `visited` is exactly the key set of `parent`;
      - the frontier holds visited coordinates, each once;
      - the start is the only coordinate without a parent, and it is
        visited as soon as anything is;
      - a parent was removed from the frontier before its child was
        discovered, and the child is in the parent's neighbour list;
      - the parent walk from every key ends (the chain is acyclic);
      - the end is never removed without the search finishing. */
  ghost predicate Inv(p: GridView, s: State)
  {
    && (forall c :: c in s.visited ==> InBounds(p, c))
    && s.parent.Keys == s.visited
    && (forall i :: 0 <= i < |s.frontier| ==> s.frontier[i] in s.visited)
    && NoDups(s.frontier)
    && (s.visited != {} ==> p.start in s.visited)
    && (forall k :: k in s.parent ==> (s.parent[k].None? <==> k == p.start))
    && (forall k :: k in s.parent && s.parent[k].Some? ==>
          && s.parent[k].value in s.visited
          && s.parent[k].value !in s.frontier
          && k in p.neighbors(s.parent[k].value))
    && (forall k :: k in s.parent ==> WalkEnds(s.parent, k, |s.parent|))
    && (p.end in Removed(s) ==> s.finished)
  }

  /** Inv, and the grid's flags agree with the engine: `in_frontier` on the
      frontier, `is_visited` on the removed coordinates, and `in_path` on
      the walk back from the end once the end has been removed (nowhere
      before). */
  ghost predicate Consistent(p: GridView, s: State)
  {
    && Inv(p, s)
    && s.marks.inFrontier == Elems(s.frontier)
    && s.marks.isVisited == Removed(s)
    && s.marks.inPath == (if p.end in Removed(s) then Elems(Walk(s.parent, p.end, |s.parent|)) else {})
  }

  /** Under Inv the walk `_reconstruct_path` makes from the end terminates,
      so `step` can always be taken. */
  lemma InvWalkEnds(p: GridView, s: State)
    requires Inv(p, s)
    ensures WalkEnds(s.parent, p.end, |s.parent|)
  {
  }

  /** The constructor's state satisfies Inv whatever the grid's flags are. */
  lemma InitInv(p: GridView, marks: Marks)
    ensures Inv(p, Init(marks))
  {
  }

  /** Stepping an engine that was never started finishes it at once and
      changes nothing else. */
  lemma InitStep(p: GridView, d: Discipline, marks: Marks)
    ensures Step(p, d, Init(marks)) == Init(marks).(finished := true)
  {
  }

  /** start_search yields a consistent state on a valid grid. */
  lemma StartSearchConsistent(p: GridView, s: State)
    requires Valid(p)
    ensures Consistent(p, StartSearch(p, s))
    ensures Removed(StartSearch(p, s)) == {}
  {
    var r := StartSearch(p, s);
    assert Elems(r.frontier) == {p.start};
  }

  /** start_search forgets everything about the state it is called from. */
  lemma StartSearchForgets(p: GridView, s1: State, s2: State)
    ensures StartSearch(p, s1) == StartSearch(p, s2)
  {
  }

  /** Removing one coordinate from a duplicate-free frontier. */
  lemma TakeSplit(d: Discipline, q: seq<Coord>)
    requires |q| > 0 && NoDups(q)
    ensures NoDups(Take(d, q).1)
    ensures Take(d, q).0 !in Take(d, q).1
    ensures Elems(q) == Elems(Take(d, q).1) + {Take(d, q).0}
  {
    var (x, rest) := Take(d, q);
    match d
    case FIFO =>
      assert forall i :: 0 <= i < |rest| ==> rest[i] == q[i + 1];
      ElemsAppend([x], rest);
    case LIFO =>
      assert forall i :: 0 <= i < |rest| ==> rest[i] == q[i];
      ElemsAppend(rest, [x]);
  }

  /** The neighbour loop makes every neighbour visited and gives each one
      seen for the first time `cur` as its parent. */
  lemma {:induction false} ExpandVisits(nbs: seq<Coord>, cur: Coord, s: State)
    requires s.parent.Keys == s.visited
    ensures Expand(nbs, cur, s).visited == s.visited + Elems(nbs)
    ensures Expand(nbs, cur, s).parent.Keys == Expand(nbs, cur, s).visited
    ensures forall k :: k in Elems(nbs) - s.visited ==> Expand(nbs, cur, s).parent[k] == Some(cur)
    decreases |nbs|
  {
    if |nbs| > 0 {
      var n := nbs[0];
      ElemsCons(nbs);
      var s' := if n in s.visited then s else Discover(s, n, cur);
      assert Expand(nbs, cur, s) == Expand(nbs[1..], cur, s');
      ExpandVisits(nbs[1..], cur, s');
    }
  }

  /** The neighbour loop appends the first-seen unvisited neighbours to the
      frontier. */
  lemma {:induction false} ExpandQueues(nbs: seq<Coord>, cur: Coord, s: State)
    ensures Expand(nbs, cur, s).frontier == s.frontier + FirstUnseen(nbs, s.visited)
    decreases |nbs|
  {
    if |nbs| > 0 {
      var n := nbs[0];
      if n in s.visited {
        assert Expand(nbs, cur, s) == Expand(nbs[1..], cur, s);
        ExpandQueues(nbs[1..], cur, s);
      } else {
        var s' := Discover(s, n, cur);
        var rest := FirstUnseen(nbs[1..], s.visited + {n});
        assert FirstUnseen(nbs, s.visited) == [n] + rest;
        assert s'.visited == s.visited + {n} && s'.frontier == s.frontier + [n];
        assert Expand(nbs, cur, s) == Expand(nbs[1..], cur, s');
        ExpandQueues(nbs[1..], cur, s');
        assert s.frontier + ([n] + rest) == (s.frontier + [n]) + rest;
      }
    }
  }

  /** The neighbour loop sets `in_frontier` on exactly the coordinates it
      appends, and touches no other flag. */
  lemma {:induction false} ExpandFlags(nbs: seq<Coord>, cur: Coord, s: State)
    ensures Expand(nbs, cur, s).marks ==
              s.marks.(inFrontier := s.marks.inFrontier + Elems(FirstUnseen(nbs, s.visited)))
    decreases |nbs|
  {
    if |nbs| > 0 {
      var n := nbs[0];
      if n in s.visited {
        assert Expand(nbs, cur, s) == Expand(nbs[1..], cur, s);
        ExpandFlags(nbs[1..], cur, s);
      } else {
        var s' := Discover(s, n, cur);
        assert Expand(nbs, cur, s) == Expand(nbs[1..], cur, s');
        ExpandFlags(nbs[1..], cur, s');
        var rest := FirstUnseen(nbs[1..], s'.visited);
        assert FirstUnseen(nbs, s.visited) == [n] + rest;
        ElemsAppend([n], rest);
        assert s.marks.inFrontier + Elems([n] + rest) == s'.marks.inFrontier + Elems(rest);
      }
    }
  }

  /** The neighbour loop, all at once: the frontier grows by the unseen
      neighbours in first-occurrence order, all neighbours end up visited,
      each newly seen one has `cur` as parent and gets `in_frontier`. */
  lemma ExpandEffect(nbs: seq<Coord>, cur: Coord, s: State)
    requires s.parent.Keys == s.visited
    ensures Expand(nbs, cur, s).frontier == s.frontier + FirstUnseen(nbs, s.visited)
    ensures Expand(nbs, cur, s).visited == s.visited + Elems(nbs)
    ensures Expand(nbs, cur, s).parent.Keys == Expand(nbs, cur, s).visited
    ensures forall k :: k in Elems(nbs) - s.visited ==> Expand(nbs, cur, s).parent[k] == Some(cur)
    ensures Expand(nbs, cur, s).marks ==
              s.marks.(inFrontier := s.marks.inFrontier + Elems(FirstUnseen(nbs, s.visited)))
  {
    ExpandVisits(nbs, cur, s);
    ExpandQueues(nbs, cur, s);
    ExpandFlags(nbs, cur, s);
  }

  /** A map with at least the keys of another has at least its size. */
  lemma MapGrows(m1: Parents, m2: Parents, extra: set<Coord>)
    requires m1.Keys + extra <= m2.Keys
    requires m1.Keys !! extra
    ensures |m1| + |extra| <= |m2|
  {
    assert |m1.Keys + extra| == |m1.Keys| + |extra|;
    SubsetCard(m1.Keys + extra, m2.Keys);
  }

  /** `r` is `s` after `cur` was removed (leaving `rest`) and its
      neighbours were expanded. */
  ghost predicate ExpandedFrom(p: GridView, s: State, cur: Coord, rest: seq<Coord>, r: State)
  {
    var nbs := p.neighbors(cur);
    && r.frontier == rest + FirstUnseen(nbs, s.visited)
    && r.visited == s.visited + Elems(nbs)
    && r.parent.Keys == r.visited
    && Extends(s.parent, r.parent)
    && (forall k :: k in Elems(nbs) - s.visited ==> r.parent[k] == Some(cur))
    && r.finished == s.finished
    && r.marks == s.marks.(inFrontier := s.marks.inFrontier - {cur} + Elems(FirstUnseen(nbs, s.visited)),
                           isVisited := s.marks.isVisited + {cur})
  }

  /** The removal that starts a `step`, under Inv. */
  ghost predicate RemovedFrom(p: GridView, s: State, cur: Coord, rest: seq<Coord>)
  {
    && Inv(p, s) && !s.finished
    && cur in s.visited && cur != p.end
    && NoDups(rest) && cur !in rest
    && Elems(s.frontier) == Elems(rest) + {cur}
  }

  lemma ExpandShape(p: GridView, d: Discipline, s: State)
    requires Inv(p, s) && !s.finished && |s.frontier| > 0
    requires Take(d, s.frontier).0 != p.end
    ensures RemovedFrom(p, s, Take(d, s.frontier).0, Take(d, s.frontier).1)
    ensures ExpandedFrom(p, s, Take(d, s.frontier).0, Take(d, s.frontier).1, Step(p, d, s))
  {
    var (cur, rest) := Take(d, s.frontier);
    TakeSplit(d, s.frontier);
    var marks := s.marks.(inFrontier := s.marks.inFrontier - {cur},
                          isVisited := s.marks.isVisited + {cur});
    var s1 := s.(frontier := rest, marks := marks);
    assert Step(p, d, s) == Expand(p.neighbors(cur), cur, s1);
    ExpandEffect(p.neighbors(cur), cur, s1);
  }

  /** Bounds, frontier and removal bookkeeping after an expansion. */
  lemma ExpandFrontierInv(p: GridView, s: State, cur: Coord, rest: seq<Coord>, r: State)
    requires Valid(p) && RemovedFrom(p, s, cur, rest) && ExpandedFrom(p, s, cur, rest, r)
    ensures forall c :: c in r.visited ==> InBounds(p, c)
    ensures forall i :: 0 <= i < |r.frontier| ==> r.frontier[i] in r.visited
    ensures NoDups(r.frontier)
    ensures cur !in Removed(s)
    ensures Removed(r) == Removed(s) + {cur}
  {
    var nbs := p.neighbors(cur);
    var found := FirstUnseen(nbs, s.visited);
    ElemsAppend(rest, found);
    forall c | c in r.visited
      ensures InBounds(p, c)
    {
      if c !in s.visited {
        var i :| 0 <= i < |nbs| && nbs[i] == c;
      }
    }
    NoDupsAppend(rest, found);
    forall i | 0 <= i < |r.frontier|
      ensures r.frontier[i] in r.visited
    {
      var x := r.frontier[i];
      assert x in Elems(rest) + Elems(found);
      if x in Elems(rest) {
        assert x in Elems(s.frontier);
        var j :| 0 <= j < |s.frontier| && s.frontier[j] == x;
      }
    }
    assert Elems(r.frontier) == Elems(rest) + Elems(found);
  }

  /** Parent bookkeeping after an expansion. */
  lemma ExpandParentInv(p: GridView, s: State, cur: Coord, rest: seq<Coord>, r: State)
    requires RemovedFrom(p, s, cur, rest) && ExpandedFrom(p, s, cur, rest, r)
    ensures r.visited != {} ==> p.start in r.visited
    ensures forall k :: k in r.parent ==> (r.parent[k].None? <==> k == p.start)
    ensures forall k :: k in r.parent && r.parent[k].Some? ==>
              && r.parent[k].value in r.visited
              && r.parent[k].value !in r.frontier
              && k in p.neighbors(r.parent[k].value)
  {
    var nbs := p.neighbors(cur);
    var found := FirstUnseen(nbs, s.visited);
    ElemsAppend(rest, found);
    forall k | k in r.parent
      ensures r.parent[k].None? <==> k == p.start
      ensures r.parent[k].Some? ==>
              && r.parent[k].value in r.visited
              && r.parent[k].value !in r.frontier
              && k in p.neighbors(r.parent[k].value)
    {
      if k in s.parent {
        assert r.parent[k] == s.parent[k];
        if r.parent[k].Some? {
          assert r.parent[k].value !in Elems(rest) + Elems(found);
        }
      } else {
        assert r.parent[k] == Some(cur);
        assert cur !in Elems(rest) + Elems(found);
      }
    }
  }

  /** Adding entries that all point at an existing key `cur` keeps every
      walk finite; the fuel grows with the map. */
  lemma WalkAfterAdding(m1: Parents, m2: Parents, cur: Coord, k: Coord)
    requires Closed(m1) && Extends(m1, m2)
    requires cur in m1 && WalkEnds(m1, cur, |m1|)
    requires k in m2
    requires k in m1 ==> WalkEnds(m1, k, |m1|)
    requires k !in m1 ==> m2[k] == Some(cur)
    ensures WalkEnds(m2, k, |m2|)
  {
    MapGrows(m1, m2, {});
    if k in m1 {
      WalkExtend(m1, m2, k, |m1|);
      WalkFuel(m2, k, |m1|, |m2|);
    } else {
      MapGrows(m1, m2, {k});
      WalkExtend(m1, m2, cur, |m1|);
      WalkFuel(m2, cur, |m1|, |m2| - 1);
    }
  }

  /** Parent walks still end after an expansion. */
  lemma ExpandWalkInv(p: GridView, s: State, cur: Coord, rest: seq<Coord>, r: State)
    requires RemovedFrom(p, s, cur, rest) && ExpandedFrom(p, s, cur, rest, r)
    ensures forall k :: k in r.parent ==> WalkEnds(r.parent, k, |r.parent|)
  {
    assert Closed(s.parent);
    assert WalkEnds(s.parent, cur, |s.parent|);
    forall k | k in r.parent
      ensures WalkEnds(r.parent, k, |r.parent|)
    {
      WalkAfterAdding(s.parent, r.parent, cur, k);
    }
  }

  /** A `step` that removes `cur`, which is not the end, and expands it:
      Inv is kept, `cur` is the one coordinate added to the removed ones,
      the frontier becomes the rest followed by the newly seen neighbours,
      and the flags move accordingly. */
  lemma ExpandStep(p: GridView, d: Discipline, s: State)
    requires Valid(p) && Inv(p, s) && !s.finished && |s.frontier| > 0
    requires Take(d, s.frontier).0 != p.end
    ensures Inv(p, Step(p, d, s))
    ensures Take(d, s.frontier).0 !in Removed(s)
    ensures Removed(Step(p, d, s)) == Removed(s) + {Take(d, s.frontier).0}
    ensures ExpandedFrom(p, s, Take(d, s.frontier).0, Take(d, s.frontier).1, Step(p, d, s))
  {
    var (cur, rest) := Take(d, s.frontier);
    var r := Step(p, d, s);
    ExpandShape(p, d, s);
    ExpandFrontierInv(p, s, cur, rest, r);
    ExpandParentInv(p, s, cur, rest, r);
    ExpandWalkInv(p, s, cur, rest, r);
  }

  /** A `step` that removes the end: Inv is kept and the search finishes. */
  lemma GoalStep(p: GridView, d: Discipline, s: State)
    requires Inv(p, s) && !s.finished && |s.frontier| > 0
    requires Take(d, s.frontier).0 == p.end
    ensures Inv(p, Step(p, d, s))
    ensures Step(p, d, s).finished
    ensures Removed(Step(p, d, s)) == Removed(s) + {p.end}
    ensures Step(p, d, s).parent == s.parent
    ensures Step(p, d, s).marks ==
              s.marks.(inFrontier := s.marks.inFrontier - {p.end},
                       isVisited := s.marks.isVisited + {p.end},
                       inPath := s.marks.inPath + Elems(Walk(s.parent, p.end, |s.parent|)))
  {
    var rest := Take(d, s.frontier).1;
    TakeSplit(d, s.frontier);
    var r := Step(p, d, s);
    assert r.frontier == rest && r.visited == s.visited && r.parent == s.parent;
    assert p.end in s.visited;
    assert Removed(r) == Removed(s) + {p.end};
  }

  /** Every `step` keeps Inv. */
  lemma StepInv(p: GridView, d: Discipline, s: State)
    requires Valid(p) && Inv(p, s)
    ensures Inv(p, Step(p, d, s))
  {
    if !s.finished && |s.frontier| > 0 {
      if Take(d, s.frontier).0 == p.end {
        GoalStep(p, d, s);
      } else {
        ExpandStep(p, d, s);
      }
    }
  }


  /** Every `step` keeps the grid's flags in agreement with the engine. */
  lemma StepConsistent(p: GridView, d: Discipline, s: State)
    requires Valid(p) && Consistent(p, s)
    ensures Consistent(p, Step(p, d, s))
  {
    StepInv(p, d, s);
    if !s.finished && |s.frontier| > 0 {
      var (cur, rest) := Take(d, s.frontier);
      TakeSplit(d, s.frontier);
      if cur == p.end {
        GoalStep(p, d, s);
      } else {
        ExpandStep(p, d, s);
        ElemsAppend(rest, FirstUnseen(p.neighbors(cur), s.visited));
      }
    }
  }

  /** Under Inv the parent walk from a discovered end has no repeated
      coordinate, ends at the start, and read backwards goes from the start
      to the end through neighbour lists, each link being the parent that
      discovered its child. */
  lemma PathShape(p: GridView, s: State)
    requires Inv(p, s) && p.end in s.visited
    ensures WalkEnds(s.parent, p.end, |s.parent|)
    ensures Walk(s.parent, p.end, |s.parent|)[0] == p.end
    ensures Walk(s.parent, p.end, |s.parent|)[|Walk(s.parent, p.end, |s.parent|)| - 1] == p.start
    ensures NoDups(Walk(s.parent, p.end, |s.parent|))
    ensures forall x :: x in Walk(s.parent, p.end, |s.parent|) ==> x in s.visited
    ensures forall i :: 0 <= i < |Walk(s.parent, p.end, |s.parent|)| - 1 ==>
              && Next(s.parent, Walk(s.parent, p.end, |s.parent|)[i]) == Some(Walk(s.parent, p.end, |s.parent|)[i + 1])
              && Walk(s.parent, p.end, |s.parent|)[i] in p.neighbors(Walk(s.parent, p.end, |s.parent|)[i + 1])
  {
    var w := Walk(s.parent, p.end, |s.parent|);
    WalkShape(s.parent, p.end, |s.parent|);
    WalkNoDups(s.parent, p.end, |s.parent|);
    assert Closed(s.parent);
    WalkInKeys(s.parent, p.end, |s.parent|);
    assert w[|w| - 1] in w;
  }

  /** A `step` that removes the end finishes the search and sets `in_path`
      on exactly the parent walk from the end, whose shape PathShape gives. */
  lemma StepFindsPath(p: GridView, d: Discipline, s: State)
    requires Consistent(p, s) && !s.finished && |s.frontier| > 0
    requires Take(d, s.frontier).0 == p.end
    ensures WalkEnds(s.parent, p.end, |s.parent|)
    ensures Step(p, d, s).finished
    ensures Step(p, d, s).marks.inPath == Elems(Walk(s.parent, p.end, |s.parent|))
    ensures Walk(s.parent, p.end, |s.parent|)[0] == p.end
    ensures Walk(s.parent, p.end, |s.parent|)[|Walk(s.parent, p.end, |s.parent|)| - 1] == p.start
  {
    TakeSplit(d, s.frontier);
    assert p.end in Elems(s.frontier);
    PathShape(p, s);
    GoalStep(p, d, s);
  }

  /** When the start is the end, the first `step` after start_search finds
      it: the search finishes with only the start on the path. */
  lemma StartIsEnd(p: GridView, d: Discipline, s: State)
    requires Valid(p) && p.start == p.end
    ensures Step(p, d, StartSearch(p, s)).finished
    ensures Step(p, d, StartSearch(p, s)).marks.inPath == {p.start}
  {
    var s0 := StartSearch(p, s);
    assert Walk(s0.parent, p.end, |s0.parent|) == [p.start];
  }


  /** On a constructed grid of the same size, every `grid.cells[r][c]` the
      engine touches is in range and is the cell carrying (r, c): the start,
      and the removed and discovered coordinates, which include the walk
      back from the end (PathShape). */
  lemma CellAccessesInRange(p: GridView, g: Grid, s: State)
    requires Valid(p) && Inv(p, s)
    requires Shaped(g) && g.rows == p.rows && g.cols == p.cols
    ensures forall c :: c in s.visited || c == p.start ==>
              && 0 <= c.row < |g.cells| && 0 <= c.col < |g.cells[c.row]|
              && g.cells[c.row][c.col].row == c.row && g.cells[c.row][c.col].col == c.col
  {
  }

}
