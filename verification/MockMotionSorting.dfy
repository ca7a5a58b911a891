/** Sorting edges.  The source calls an unstable sort with `edge_less`
    (mock_mcu/src/motion_executor.cpp:19-36); where no two different edges tie, every sort gives the
    same list, so the insertion sort of the model stands for it. */
module MockMotionSorting {
  import opened FixedWidth
  import opened MockMotion

  ghost predicate Sorted(edges: seq<Edge>) {
    forall i, j | 0 <= i < j < |edges| :: !EdgeLess(edges[j], edges[i])
  }

  /** Edges that compare alike are the same edge. */
  ghost predicate TieFree(edges: seq<Edge>) {
    forall x, y | x in edges && y in edges :: !EdgeLess(x, y) && !EdgeLess(y, x) ==> x == y
  }

  ghost predicate AllLess(a: seq<Edge>, b: seq<Edge>) {
    forall x, y | x in a && y in b :: EdgeLess(x, y)
  }

  lemma {:induction false} InsertMultiset(edge: Edge, sorted: seq<Edge>)
    ensures multiset(Insert(edge, sorted)) == multiset(sorted) + multiset{edge}
  {
    if sorted != [] && EdgeLess(sorted[0], edge) {
      InsertMultiset(edge, sorted[1..]);
      assert sorted == [sorted[0]] + sorted[1..];
    }
  }

  lemma {:induction false} SortMultiset(edges: seq<Edge>)
    ensures multiset(SortEdges(edges)) == multiset(edges)
    ensures |SortEdges(edges)| == |edges|
  {
    if edges != [] {
      SortMultiset(edges[1..]);
      InsertMultiset(edges[0], SortEdges(edges[1..]));
      assert edges == [edges[0]] + edges[1..];
    }
    assert |multiset(SortEdges(edges))| == |multiset(edges)|;
  }

  lemma SameMembers(a: seq<Edge>, b: seq<Edge>)
    requires multiset(a) == multiset(b)
    ensures forall x :: x in a <==> x in b
  {
    assert forall x :: x in a <==> x in multiset(a);
    assert forall x :: x in b <==> x in multiset(b);
  }

  lemma {:induction false} InsertSorted(edge: Edge, sorted: seq<Edge>)
    requires Sorted(sorted)
    ensures Sorted(Insert(edge, sorted))
  {
    if sorted != [] && EdgeLess(sorted[0], edge) {
      InsertSorted(edge, sorted[1..]);
      InsertMultiset(edge, sorted[1..]);
      var rest := Insert(edge, sorted[1..]);
      forall j | 0 <= j < |rest|
        ensures !EdgeLess(rest[j], sorted[0])
      {
        assert rest[j] in multiset(rest);
        assert rest[j] == edge || rest[j] in sorted[1..];
      }
    }
  }

  lemma {:induction false} SortSorted(edges: seq<Edge>)
    ensures Sorted(SortEdges(edges))
  {
    if edges != [] {
      SortSorted(edges[1..]);
      InsertSorted(edges[0], SortEdges(edges[1..]));
    }
  }

  lemma HeadsAgree(a: seq<Edge>, b: seq<Edge>)
    requires Sorted(a) && Sorted(b) && multiset(a) == multiset(b) && TieFree(a) && a != [] && b != []
    ensures a[0] == b[0]
  {
    SameMembers(a, b);
    assert a[0] in b && b[0] in a;
    var i :| 0 <= i < |b| && b[i] == a[0];
    var j :| 0 <= j < |a| && a[j] == b[0];
    assert i > 0 ==> !EdgeLess(b[i], b[0]);
    assert j > 0 ==> !EdgeLess(a[j], a[0]);
  }

  lemma TailsAgree(a: seq<Edge>, b: seq<Edge>)
    requires multiset(a) == multiset(b) && a != [] && b != [] && a[0] == b[0]
    ensures multiset(a[1..]) == multiset(b[1..])
  {
    assert a == [a[0]] + a[1..] && b == [b[0]] + b[1..];
    assert multiset(a[1..]) == multiset(a) - multiset{a[0]};
    assert multiset(b[1..]) == multiset(b) - multiset{b[0]};
  }

  lemma {:induction false} SortedUnique(a: seq<Edge>, b: seq<Edge>)
    requires Sorted(a) && Sorted(b) && multiset(a) == multiset(b) && TieFree(a)
    ensures a == b
    decreases |a|
  {
    assert |multiset(a)| == |a| && |multiset(b)| == |b|;
    if a != [] {
      HeadsAgree(a, b);
      TailsAgree(a, b);
      SortedUnique(a[1..], b[1..]);
      assert a == [a[0]] + a[1..] && b == [b[0]] + b[1..];
    }
  }

  /** Any sorted arrangement of tie-free edges is the one the model computes. */
  lemma SortForced(edges: seq<Edge>, sorted: seq<Edge>)
    requires multiset(sorted) == multiset(edges) && Sorted(sorted) && TieFree(edges)
    ensures sorted == SortEdges(edges)
  {
    SortSorted(edges);
    SortMultiset(edges);
    SameMembers(sorted, edges);
    SortedUnique(sorted, SortEdges(edges));
  }

  lemma {:induction false} InsertBefore(edge: Edge, a: seq<Edge>, b: seq<Edge>)
    requires forall y | y in b :: EdgeLess(edge, y)
    ensures Insert(edge, a + b) == Insert(edge, a) + b
  {
    if a == [] {
      assert a + b == b;
      assert b != [] ==> b[0] in b;
    } else {
      assert (a + b)[0] == a[0] && (a + b)[1..] == a[1..] + b;
      if EdgeLess(a[0], edge) {
        InsertBefore(edge, a[1..], b);
        assert [a[0]] + (Insert(edge, a[1..]) + b) == ([a[0]] + Insert(edge, a[1..])) + b;
      } else {
        assert [edge] + (a + b) == ([edge] + a) + b;
      }
    }
  }

  /** Sorting edges that all precede some others gives the two parts sorted one after the other. */
  lemma {:induction false} SortSplit(a: seq<Edge>, b: seq<Edge>)
    requires AllLess(a, b)
    ensures SortEdges(a + b) == SortEdges(a) + SortEdges(b)
  {
    if a == [] {
      assert a + b == b;
    } else {
      assert (a + b)[1..] == a[1..] + b;
      SortSplit(a[1..], b);
      SortMultiset(b);
      SameMembers(SortEdges(b), b);
      InsertBefore(a[0], SortEdges(a[1..]), SortEdges(b));
    }
  }

  /** Sorting depends only on which edges there are, when none tie. */
  lemma SortCanonical(a: seq<Edge>, b: seq<Edge>)
    requires multiset(a) == multiset(b) && TieFree(a)
    ensures SortEdges(a) == SortEdges(b)
  {
    SortSorted(b);
    SortMultiset(b);
    SortForced(a, SortEdges(b));
  }

  // ---------------------------------------------------------------- the order itself

  predicate FallingEdge(edge: Edge) {
    edge.signal == StepLine && !edge.level
  }

  predicate RisingEdge(edge: Edge) {
    edge.signal == StepLine && edge.level
  }

  /** Edges go by time.  At one moment a line falls before any other kind of edge and rises after any other, axes are enabled
      before directions change, and edges of a kind go by axis. */
  lemma OrderExactly(a: Edge, b: Edge)
    ensures a.time < b.time ==> EdgeLess(a, b) && !EdgeLess(b, a)
    ensures a.time == b.time && FallingEdge(a) && !FallingEdge(b) ==> EdgeLess(a, b) && !EdgeLess(b, a)
    ensures a.time == b.time && RisingEdge(b) && !RisingEdge(a) ==> EdgeLess(a, b) && !EdgeLess(b, a)
    ensures a.time == b.time && a.signal == Enable && b.signal == Direction ==> EdgeLess(a, b) && !EdgeLess(b, a)
    ensures a.time == b.time && a.signal == b.signal && (a.signal == StepLine ==> a.level == b.level) ==>
              (EdgeLess(a, b) <==> a.axis < b.axis)
  {
  }

  /** The step counter goes up by the edges that raise a line. */
  lemma {:induction false} CountRisesExactly(edges: seq<Edge>)
    ensures CountRises(edges) == |set k | 0 <= k < |edges| && RisingEdge(edges[k])|
  {
    if edges != [] {
      var front, last := edges[..|edges| - 1], edges[|edges| - 1];
      CountRisesExactly(front);
      CountRisesAppends(front, last);
      var all := set k | 0 <= k < |edges| && RisingEdge(edges[k]);
      var before := set k | 0 <= k < |front| && RisingEdge(front[k]);
      assert forall k | 0 <= k < |front| :: edges[k] == front[k];
      assert all == if RisingEdge(last) then before + {|front|} else before;
      assert edges == front + [last];
    }
  }

  lemma {:induction false} CountRisesAppends(edges: seq<Edge>, last: Edge)
    ensures CountRises(edges + [last]) == CountRises(edges) + if RisingEdge(last) then 1 else 0
    decreases |edges|
  {
    if edges == [] {
      assert edges + [last] == [last];
    } else {
      assert (edges + [last])[1..] == edges[1..] + [last];
      CountRisesAppends(edges[1..], last);
    }
  }
}
