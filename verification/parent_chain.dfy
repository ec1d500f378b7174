/** The parent map of a search and the backward walk `_reconstruct_path`
    performs over it (algorithms.py). The walk follows `parent.get`, so it
    stops at the start (mapped to None) or at a coordinate with no entry. */
module ParentChain {

  import opened Optional
  import opened Grids
  import opened SeqUtil

  type Parents = map<Coord, Option<Coord>>

  /** `parent.get(c)`: None for a missing key as well as for the start. */
  function Next(parent: Parents, c: Coord): Option<Coord>
  {
    if c in parent then parent[c] else None
  }

  /** The walk from `c` reaches None after at most `fuel` further links. */
  predicate WalkEnds(parent: Parents, c: Coord, fuel: nat)
    decreases fuel
  {
    match Next(parent, c)
    case None => true
    case Some(q) => fuel > 0 && WalkEnds(parent, q, fuel - 1)
  }

  /** The coordinates the walk from `c` marks, in order; the last one is the
      coordinate whose `parent.get` is None. */
  function Walk(parent: Parents, c: Coord, fuel: nat): seq<Coord>
    requires WalkEnds(parent, c, fuel)
    decreases fuel
  {
    match Next(parent, c)
    case None => [c]
    case Some(q) => [c] + Walk(parent, q, fuel - 1)
  }

  /** Every value stored in the map is itself a key. */
  ghost predicate Closed(parent: Parents)
  {
    forall k :: k in parent && parent[k].Some? ==> parent[k].value in parent
  }

  /** `m2` keeps every entry of `m1`. */
  ghost predicate Extends(m1: Parents, m2: Parents)
  {
    forall k :: k in m1 ==> k in m2 && m2[k] == m1[k]
  }

  /** The walk starts at `c`, takes at most `fuel` links, follows the map
      at every link and ends where the map yields None. */
  lemma {:induction false} WalkShape(parent: Parents, c: Coord, fuel: nat)
    requires WalkEnds(parent, c, fuel)
    decreases fuel
    ensures |Walk(parent, c, fuel)| <= fuel + 1
    ensures Walk(parent, c, fuel)[0] == c
    ensures Next(parent, Walk(parent, c, fuel)[|Walk(parent, c, fuel)| - 1]) == None
    ensures forall i :: 0 <= i < |Walk(parent, c, fuel)| - 1 ==>
              Next(parent, Walk(parent, c, fuel)[i]) == Some(Walk(parent, c, fuel)[i + 1])
  {
    match Next(parent, c)
    case None =>
    case Some(q) =>
      WalkShape(parent, q, fuel - 1);
  }

  /** More fuel never hurts and never changes the walk. */
  lemma {:induction false} WalkFuel(parent: Parents, c: Coord, fuel: nat, more: nat)
    requires WalkEnds(parent, c, fuel) && fuel <= more
    decreases fuel
    ensures WalkEnds(parent, c, more)
    ensures Walk(parent, c, more) == Walk(parent, c, fuel)
  {
    match Next(parent, c)
    case None =>
    case Some(q) =>
      WalkFuel(parent, q, fuel - 1, more - 1);
  }

  /** The walk from its i-th coordinate is the i-th suffix of the walk. */
  lemma {:induction false} WalkSuffix(parent: Parents, c: Coord, fuel: nat, i: nat)
    requires WalkEnds(parent, c, fuel)
    requires i < |Walk(parent, c, fuel)|
    decreases i
    ensures i <= fuel
    ensures WalkEnds(parent, Walk(parent, c, fuel)[i], fuel - i)
    ensures Walk(parent, c, fuel)[i..] == Walk(parent, Walk(parent, c, fuel)[i], fuel - i)
  {
    if i > 0 {
      match Next(parent, c)
      case None =>
      case Some(q) =>
        WalkSuffix(parent, q, fuel - 1, i - 1);
    }
  }

  /** A walk that ends never repeats a coordinate: the parent chain is
      acyclic. */
  lemma WalkNoDups(parent: Parents, c: Coord, fuel: nat)
    requires WalkEnds(parent, c, fuel)
    ensures NoDups(Walk(parent, c, fuel))
  {
    var w := Walk(parent, c, fuel);
    forall i, j | 0 <= i < j < |w|
      ensures w[i] != w[j]
    {
      WalkSuffix(parent, c, fuel, i);
      WalkSuffix(parent, c, fuel, j);
      WalkFuel(parent, w[j], fuel - j, fuel - i);
      assert |w[i..]| != |w[j..]|;
    }
  }

  /** In a closed map the walk from a key stays among the keys. */
  lemma {:induction false} WalkInKeys(parent: Parents, c: Coord, fuel: nat)
    requires Closed(parent) && c in parent
    requires WalkEnds(parent, c, fuel)
    decreases fuel
    ensures forall x :: x in Walk(parent, c, fuel) ==> x in parent
  {
    match Next(parent, c)
    case None =>
    case Some(q) =>
      WalkInKeys(parent, q, fuel - 1);
  }

  /** Adding entries to a closed map leaves a walk from one of its keys
      unchanged. */
  lemma {:induction false} WalkExtend(m1: Parents, m2: Parents, c: Coord, fuel: nat)
    requires Closed(m1) && Extends(m1, m2) && c in m1
    requires WalkEnds(m1, c, fuel)
    decreases fuel
    ensures WalkEnds(m2, c, fuel)
    ensures Walk(m2, c, fuel) == Walk(m1, c, fuel)
  {
    match Next(m1, c)
    case None =>
    case Some(q) =>
      WalkExtend(m1, m2, q, fuel - 1);
  }

  /** `_reconstruct_path`: starting from `end`, mark the current coordinate
      and move to `parent.get(cur)` until that is None. Returns the marked
      coordinates in marking order. The loop terminates exactly when the
      walk from `end` ends, which the precondition states. */
  method ReconstructPath(parent: Parents, end: Coord) returns (path: seq<Coord>)
    requires WalkEnds(parent, end, |parent|)
    ensures path == Walk(parent, end, |parent|)
  {
    path := [];
    var cur: Option<Coord> := Some(end);
    ghost var fuel: nat := |parent|;
    while cur.Some?
      invariant cur.Some? ==> WalkEnds(parent, cur.value, fuel)
      invariant cur.Some? ==> Walk(parent, end, |parent|) == path + Walk(parent, cur.value, fuel)
      invariant cur.None? ==> Walk(parent, end, |parent|) == path
      decreases if cur.Some? then fuel + 1 else 0
    {
      var c := cur.value;
      path := path + [c];
      cur := if c in parent then parent[c] else None;
      if cur.Some? {
        fuel := fuel - 1;
      }
    }
  }

}
