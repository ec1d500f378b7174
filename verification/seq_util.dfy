/** Small facts about sequences used as queues and stacks. */
module SeqUtil {

  /** The set of elements of a sequence. */
  function Elems<T>(q: seq<T>): set<T>
  {
    set x | x in q
  }

  /** No element occurs twice. */
  ghost predicate NoDups<T>(q: seq<T>)
  {
    forall i, j :: 0 <= i < j < |q| ==> q[i] != q[j]
  }

  lemma ElemsCons<T>(q: seq<T>)
    requires |q| > 0
    ensures Elems(q) == {q[0]} + Elems(q[1..])
  {
    assert q == [q[0]] + q[1..];
  }

  lemma ElemsAppend<T>(a: seq<T>, b: seq<T>)
    ensures Elems(a + b) == Elems(a) + Elems(b)
  {
  }

  /** Appending two duplicate-free sequences with no common element gives a
      duplicate-free sequence. */
  lemma NoDupsAppend<T>(a: seq<T>, b: seq<T>)
    requires NoDups(a) && NoDups(b)
    requires Elems(a) !! Elems(b)
    ensures NoDups(a + b)
  {
    forall i, j | 0 <= i < j < |a + b|
      ensures (a + b)[i] != (a + b)[j]
    {
      if j < |a| {
      } else if i >= |a| {
        assert (a + b)[i] == b[i - |a|] && (a + b)[j] == b[j - |a|];
      } else {
        assert (a + b)[i] in Elems(a) && (a + b)[j] in Elems(b);
      }
    }
  }

  /** A subset has no more elements than its superset. */
  lemma {:induction false} SubsetCard<T>(a: set<T>, b: set<T>)
    requires a <= b
    ensures |a| <= |b|
    decreases |b|
  {
    if a != b {
      var x :| x in b && x !in a;
      SubsetCard(a, b - {x});
    }
  }

  /** `a` can be obtained from `b` by deleting elements: its elements occur
      in `b` in the same order. */
  ghost predicate Subseq<T>(a: seq<T>, b: seq<T>)
    decreases |b|
  {
    |a| == 0 || (|b| > 0 && if a[0] == b[0] then Subseq(a[1..], b[1..]) else Subseq(a, b[1..]))
  }

  /** The elements of `q` that are not in `seen`, in order of first occurrence,
      each once: the coordinates a scan over `q` discovers. */
  function FirstUnseen<T>(q: seq<T>, seen: set<T>): (d: seq<T>)
    ensures Elems(d) == Elems(q) - seen
    ensures NoDups(d)
    ensures Subseq(d, q)
    ensures forall i, j, k :: 0 <= i < j < |d| && 0 <= k < |q| && q[k] == d[j] ==> d[i] in q[..k]
    decreases |q|
  {
    if |q| == 0 then []
    else
      ElemsCons(q);
      if q[0] in seen then
        var d := FirstUnseen(q[1..], seen);
        assert |d| > 0 ==> d[0] in Elems(d);
        d
      else
        var tail := FirstUnseen(q[1..], seen + {q[0]});
        NoDupsAppend([q[0]], tail);
        ElemsAppend([q[0]], tail);
        assert ([q[0]] + tail)[1..] == tail;
        [q[0]] + tail
  }

}
