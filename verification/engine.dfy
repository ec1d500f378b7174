/** The stepwise search engine of algorithms.py. BFSAnimator and
    DFSAnimator are the same state machine except for the end of the
    frontier `step` removes from; here that choice is a Discipline value. */
module Engine {

  import opened Optional
  import opened Grids
  import opened SeqUtil
  import opened ParentChain

  /** FIFO: `popleft`, the oldest entry (BFS). LIFO: `pop`, the newest (DFS). */
  datatype Discipline = FIFO | LIFO

  /** What the engine reads from the grid: its size, the start and end
      coordinates, and the neighbour query. */
  datatype GridView = GridView(rows: int, cols: int, start: Coord, end: Coord,
                               neighbors: Coord -> seq<Coord>)

  /** The search flags of the grid's cells: a cell's `in_frontier`,
      `is_visited` or `in_path` flag is true iff its coordinate is in the
      corresponding set. */
  datatype Marks = Marks(inFrontier: set<Coord>, isVisited: set<Coord>, inPath: set<Coord>)

  /** An animator's fields together with the grid's search flags. */
  datatype State = State(frontier: seq<Coord>, visited: set<Coord>, parent: Parents,
                         finished: bool, marks: Marks)

  predicate InBounds(p: GridView, c: Coord)
  {
    0 <= c.row < p.rows && 0 <= c.col < p.cols
  }

  /** The grid the engine runs on: start and end are cells of it, and every
      neighbour of a cell is a cell. */
  ghost predicate Valid(p: GridView)
  {
    && InBounds(p, p.start)
    && InBounds(p, p.end)
    && forall c, i :: InBounds(p, c) && 0 <= i < |p.neighbors(c)| ==> InBounds(p, p.neighbors(c)[i])
  }

  /** Removes one coordinate from a non-empty frontier. */
  function Take(d: Discipline, q: seq<Coord>): (r: (Coord, seq<Coord>))
    requires |q| > 0
    ensures d == FIFO ==> q == [r.0] + r.1
    ensures d == LIFO ==> q == r.1 + [r.0]
  {
    match d
    case FIFO => (q[0], q[1..])
    case LIFO => (q[|q| - 1], q[..|q| - 1])
  }

  /** The constructor: empty collections, not finished; the grid's flags are
      left as they are. */
  function Init(marks: Marks): (r: State)
    ensures r.frontier == [] && r.visited == {} && r.parent == map[]
    ensures !r.finished && r.marks == marks
  {
    State([], {}, map[], false, marks)
  }

  /** start_search: whatever state the engine and the grid's flags were in,
      the flags are cleared and the search is seeded with the start alone. */
  function StartSearch(p: GridView, s: State): (r: State)
    ensures r.frontier == [p.start] && r.visited == {p.start}
    ensures r.parent == map[p.start := None] && !r.finished
    ensures r.marks == Marks({p.start}, {}, {})
  {
    var cleared := Marks({}, {}, {});
    State([p.start], {p.start}, map[p.start := None], false,
          cleared.(inFrontier := cleared.inFrontier + {p.start}))
  }

  /** One newly seen neighbour `n` of `cur`: it becomes visited, gets `cur`
      as parent, is appended to the frontier and gets its `in_frontier` flag. */
  function Discover(s: State, n: Coord, cur: Coord): State
  {
    s.(visited := s.visited + {n},
       parent := s.parent[n := Some(cur)],
       frontier := s.frontier + [n],
       marks := s.marks.(inFrontier := s.marks.inFrontier + {n}))
  }

  /** The neighbour loop of `step`, in list order: each neighbour not yet
      visited is discovered; visited ones are skipped. */
  function Expand(nbs: seq<Coord>, cur: Coord, s: State): (r: State)
    ensures r.finished == s.finished
    ensures s.visited <= r.visited
    ensures s.parent.Keys == s.visited ==> r.parent.Keys == r.visited && Extends(s.parent, r.parent)
    ensures |s.frontier| <= |r.frontier| && r.frontier[..|s.frontier|] == s.frontier
    ensures r.marks.isVisited == s.marks.isVisited && r.marks.inPath == s.marks.inPath
    decreases |nbs|
  {
    if |nbs| == 0 then s
    else
      var n := nbs[0];
      var s' := if n in s.visited then s else Discover(s, n, cur);
      Expand(nbs[1..], cur, s')
  }

  /** `step` after `cur` has been removed, leaving `rest`: clear its
      `in_frontier` flag and set `is_visited`; then either mark the path
      back from the end and finish, or expand `cur`'s neighbours. */
  function Advance(p: GridView, s: State, cur: Coord, rest: seq<Coord>): State
    requires cur == p.end ==> WalkEnds(s.parent, p.end, |s.parent|)
  {
    var marks := s.marks.(inFrontier := s.marks.inFrontier - {cur},
                          isVisited := s.marks.isVisited + {cur});
    if cur == p.end then
      s.(frontier := rest, finished := true,
         marks := marks.(inPath := marks.inPath + Elems(Walk(s.parent, p.end, |s.parent|))))
    else
      Expand(p.neighbors(cur), cur, s.(frontier := rest, marks := marks))
  }

  /** `step`. Its only demand is that, when this step removes the end, the
      walk `_reconstruct_path` then makes from the end terminates. */
  function Step(p: GridView, d: Discipline, s: State): (r: State)
    requires !s.finished && |s.frontier| > 0 && Take(d, s.frontier).0 == p.end ==>
               WalkEnds(s.parent, p.end, |s.parent|)
    ensures s.finished ==> r == s
    ensures !s.finished && s.frontier == [] ==> r == s.(finished := true)
    ensures !s.finished && s.frontier != [] ==>
              (r.finished <==> Take(d, s.frontier).0 == p.end)
    ensures !s.finished && s.frontier != [] ==>
              var rest := Take(d, s.frontier).1;
              && |rest| <= |r.frontier| && r.frontier[..|rest|] == rest
              && r.marks.isVisited == s.marks.isVisited + {Take(d, s.frontier).0}
              && s.visited <= r.visited
              && (s.parent.Keys == s.visited ==> Extends(s.parent, r.parent))
  {
    if s.finished then s
    else if |s.frontier| == 0 then s.(finished := true)
    else
      var (cur, rest) := Take(d, s.frontier);
      Advance(p, s, cur, rest)
  }

}
