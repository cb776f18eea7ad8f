/**
 * Cycle detection among sub-assemblies: an edge says that one product's bill of
 * materials consumes another product. The search is a recursive depth-first
 * walk that keeps the visited products, the current path as a stack, and the
 * same path as a set.
 */
module BomCycle {
  import opened Common

  datatype Edge = Edge(source: int, target: int)

  // ------------------------------------------------------------------- walks

  ghost predicate Walk(edges: seq<Edge>, p: seq<int>) {
    p != [] && forall i :: 0 <= i < |p| - 1 ==> Edge(p[i], p[i + 1]) in edges
  }

  ghost predicate Reachable(edges: seq<Edge>, start: int, node: int) {
    exists p :: Walk(edges, p) && p[0] == start && p[|p| - 1] == node
  }

  ghost predicate ClosedWalk(edges: seq<Edge>, c: seq<int>) {
    Walk(edges, c) && |c| >= 2 && c[0] == c[|c| - 1]
  }

  ghost predicate Distinct(s: seq<int>) { forall i, j :: 0 <= i < j < |s| ==> s[i] != s[j] }

  /** A closed walk without repetition except that it ends where it begins. */
  ghost predicate SimpleCycle(edges: seq<Edge>, c: seq<int>) {
    ClosedWalk(edges, c) && Distinct(c[..|c| - 1])
  }

  function Successors(edges: seq<Edge>, node: int): seq<int> {
    if edges == [] then []
    else
      var n := |edges| - 1;
      Successors(edges[..n], node) + if edges[n].source == node then [edges[n].target] else []
  }

  function Lookup(adjacency: map<int, seq<int>>, node: int): seq<int> {
    if node in adjacency then adjacency[node] else []
  }

  lemma {:induction false} SuccessorsAreTheEdges(edges: seq<Edge>, u: int, v: int)
    ensures v in Successors(edges, u) <==> Edge(u, v) in edges
  {
    if edges != [] {
      var n := |edges| - 1;
      SuccessorsAreTheEdges(edges[..n], u, v);
      assert edges == edges[..n] + [edges[n]];
    }
  }

  function Nodes(edges: seq<Edge>): set<int> {
    (set e | e in edges :: e.source) + (set e | e in edges :: e.target)
  }

  ghost predicate Lists(edges: seq<Edge>, adjacency: map<int, seq<int>>) {
    forall u :: Lookup(adjacency, u) == Successors(edges, u)
  }

  /** The successor list of a node names the targets of its edges and nothing else. */
  lemma ListedTargets(edges: seq<Edge>, adjacency: map<int, seq<int>>, u: int)
    requires Lists(edges, adjacency)
    ensures forall v :: v in Lookup(adjacency, u) <==> Edge(u, v) in edges
  {
    forall v ensures v in Lookup(adjacency, u) <==> Edge(u, v) in edges {
      SuccessorsAreTheEdges(edges, u, v);
    }
  }

  /** Finished products, in finishing order: everything a product consumes has finished before it. */
  ghost predicate Settled(edges: seq<Edge>, finished: seq<int>) {
    Distinct(finished) &&
    forall i, v :: 0 <= i < |finished| && Edge(finished[i], v) in edges ==> v in finished[..i]
  }

  // -------------------------------------------------------------- the search

  lemma NothingYet(edges: seq<Edge>)
    ensures Consistent(edges, {}, [], {}, [])
  {
  }

  /** One more edge lengthens the list of its source. */
  lemma NextEdge(edges: seq<Edge>, i: nat, lists: map<int, seq<int>>)
    requires i < |edges| && Lists(edges[..i], lists)
    ensures Lists(edges[..i + 1], lists[edges[i].source := Lookup(lists, edges[i].source) + [edges[i].target]])
  {
    var e, front := edges[i], edges[..i];
    var longer := lists[e.source := Lookup(lists, e.source) + [e.target]];
    assert edges[..i + 1][..i] == front;
    forall u ensures Lookup(longer, u) == Successors(edges[..i + 1], u) {
      assert Lookup(lists, u) == Successors(front, u);
      assert Successors(edges[..i + 1], u) == Successors(front, u) + if e.source == u then [e.target] else [];
    }
  }

  lemma NoEdges(edges: seq<Edge>)
    ensures Lists(edges[..0], map[])
  {
  }

  lemma PathBack(stack: seq<int>, onStack: set<int>, node: int)
    requires node !in onStack
    ensures (stack + [node])[..|stack|] == stack && onStack + {node} - {node} == onStack
  {
  }

  /** What the walk needs to know of its tables. */
  lemma ConsistentPath(edges: seq<Edge>, visited: set<int>, stack: seq<int>, onStack: set<int>, finished: seq<int>)
    requires Consistent(edges, visited, stack, onStack, finished)
    ensures Distinct(stack) && (stack != [] ==> Walk(edges, stack))
    ensures (forall x :: x in onStack <==> x in stack) && (forall x :: x in onStack ==> x in visited)
    ensures forall x :: x in visited && x !in onStack ==> x in finished
  {
    hide Walk, Distinct, Settled;
  }

  /** `visited` is the path together with the finished products; the path is a walk without repetition. */
  ghost predicate Consistent(edges: seq<Edge>, visited: set<int>, stack: seq<int>, onStack: set<int>,
      finished: seq<int>) {
    && onStack == (set x | x in stack)
    && Distinct(stack)
    && visited == onStack + (set x | x in finished)
    && onStack !! (set x | x in finished)
    && Settled(edges, finished)
    && (stack != [] ==> Walk(edges, stack))
  }

  lemma EnterNode(edges: seq<Edge>, visited: set<int>, stack: seq<int>, onStack: set<int>, finished: seq<int>,
      node: int)
    requires Consistent(edges, visited, stack, onStack, finished) && node !in visited
    requires stack != [] ==> Edge(stack[|stack| - 1], node) in edges
    ensures Consistent(edges, visited + {node}, stack + [node], onStack + {node}, finished)
  {
    var longer := stack + [node];
    forall i | 0 <= i < |longer| - 1 ensures Edge(longer[i], longer[i + 1]) in edges {
      if i < |stack| - 1 { assert longer[i] == stack[i] && longer[i + 1] == stack[i + 1]; }
    }
  }

  lemma LeaveNode(edges: seq<Edge>, visited: set<int>, stack: seq<int>, onStack: set<int>, finished: seq<int>,
      node: int)
    requires Consistent(edges, visited, stack + [node], onStack + {node}, finished) && node !in onStack
    requires forall v :: Edge(node, v) in edges ==> v in finished
    ensures Consistent(edges, visited, stack, onStack, finished + [node])
  {
    var longer := stack + [node];
    SettleNode(edges, finished, node);
    assert forall x :: x in stack ==> x in longer;
    assert forall x :: x in longer ==> x in stack || x == node;
    forall x | x in stack ensures x != node {
      var i :| 0 <= i < |stack| && stack[i] == x;
      assert longer[i] != longer[|stack|];
    }
    forall i, j | 0 <= i < j < |stack| ensures stack[i] != stack[j] {
      assert longer[i] != longer[j];
    }
    if stack != [] {
      forall i | 0 <= i < |stack| - 1 ensures Edge(stack[i], stack[i + 1]) in edges {
        assert longer[i] == stack[i] && longer[i + 1] == stack[i + 1];
      }
    }
  }

  class Search {
    ghost const edges: seq<Edge>
    ghost const universe: set<int>
    var adjacency: map<int, seq<int>>
    var visited: set<int>
    var stack: seq<int>
    var onStack: set<int>
    ghost var finished: seq<int>

    ghost predicate Valid()
      reads this
    {
      && Lists(edges, adjacency)
      && (forall e :: e in edges ==> e.target in universe)
      && visited <= universe
      && Consistent(edges, visited, stack, onStack, finished)
    }

    constructor (edgeList: seq<Edge>, start: int)
      ensures Valid() && stack == [] && finished == [] && edges == edgeList && start in universe
    {
      hide Lists, Consistent, Lookup, Successors;
      edges := edgeList;
      universe := Nodes(edgeList) + {start};
      visited, stack, onStack, finished := {}, [], {}, [];
      var lists: map<int, seq<int>> := map[];
      NothingYet(edgeList);
      NoEdges(edgeList);
      for i := 0 to |edgeList|
        invariant Lists(edgeList[..i], lists)
      {
        var e := edgeList[i];
        NextEdge(edgeList, i, lists);
        lists := lists[e.source := Lookup(lists, e.source) + [e.target]];
      }
      assert edgeList[..|edgeList|] == edgeList;
      adjacency := lists;
    }

    /**
     * Explores `node`. Either a cycle is found, or `node` has finished and the
     * path is as it was before.
     */
    method Dfs(node: int) returns (found: Option<seq<int>>)
      requires Valid() && node in universe && node !in visited
      requires stack != [] ==> Edge(stack[|stack| - 1], node) in edges
      modifies this
      ensures found.Some? ==> Reports((old(stack) + [node])[0], found.value)
      ensures found.None? ==>
                && Valid() && stack == old(stack) && onStack == old(onStack) && old(visited) <= visited
                && (forall x :: x in old(finished) ==> x in finished)
                && node in finished
      decreases universe - visited, 0
    {
      hide Lists, Consistent, Walk, Distinct, Reports;
      ConsistentPath(edges, visited, stack, onStack, finished);
      EnterNode(edges, visited, stack, onStack, finished, node);
      visited := visited + {node};
      onStack := onStack + {node};
      stack := stack + [node];
      found := FollowEdges(node);
      if found.None? {
        LeaveNode(edges, visited, old(stack), old(onStack), finished, node);
        stack := stack[..|stack| - 1];
        onStack := onStack - {node};
        finished := finished + [node];
        PathBack(old(stack), old(onStack), node);
      }
    }

    /** The loop of the search over the products `node` consumes, `node` being on top of the path. */
    method FollowEdges(node: int) returns (found: Option<seq<int>>)
      requires Valid() && node in visited && stack != [] && stack[|stack| - 1] == node
      modifies this
      ensures found.Some? ==> Reports(old(stack)[0], found.value)
      ensures found.None? ==>
                && Valid() && stack == old(stack) && onStack == old(onStack) && old(visited) <= visited
                && (forall x :: x in old(finished) ==> x in finished)
                && (forall v :: Edge(node, v) in edges ==> v in finished)
      decreases universe - visited, 1
    {
      hide Lists, Lookup, Consistent, Walk, Distinct, SimpleCycle, Reachable;
      found := None;
      var targets := Lookup(adjacency, node);
      ListedTargets(edges, adjacency, node);
      for i := 0 to |targets|
        invariant found.None? && Valid() && stack == old(stack) && onStack == old(onStack) && old(visited) <= visited
        invariant forall x :: x in old(finished) ==> x in finished
        invariant forall j :: 0 <= j < i ==> targets[j] in finished
      {
        ghost var before := finished;
        var next := targets[i];
        assert Edge(node, next) in edges;
        ConsistentPath(edges, visited, stack, onStack, finished);
        if next in onStack {
          var cycleStart := IndexOf(stack, next);
          StackClosesCycle(edges, stack, cycleStart, next);
          found := Some(stack[cycleStart..] + [next]);
          return;
        }
        if next !in visited {
          found := Dfs(next);
          if found.Some? {
            return;
          }
        }
        assert forall x :: x in before ==> x in finished;
        assert next in finished;
        forall j | 0 <= j <= i ensures targets[j] in finished {
          if j < i { assert targets[j] in before; }
        }
      }
    }

    ghost predicate Reports(start: int, cycle: seq<int>) {
      SimpleCycle(edges, cycle) && Reachable(edges, start, cycle[0])
    }
  }

  method IndexOf(s: seq<int>, x: int) returns (k: nat)
    requires x in s
    ensures k < |s| && s[k] == x && x !in s[..k]
  {
    k := 0;
    while s[k] != x
      invariant k < |s| && x !in s[..k]
      decreases |s| - k
    {
      ghost var m :| 0 <= m < |s| && s[m] == x;
      k := k + 1;
    }
  }

  lemma StackClosesCycle(edges: seq<Edge>, stack: seq<int>, k: nat, next: int)
    requires Walk(edges, stack) && Distinct(stack) && k < |stack| && stack[k] == next
    requires Edge(stack[|stack| - 1], next) in edges
    ensures SimpleCycle(edges, stack[k..] + [next])
    ensures Reachable(edges, stack[0], (stack[k..] + [next])[0])
  {
    var c := stack[k..] + [next];
    assert c[..|c| - 1] == stack[k..];
    var p := stack[..k + 1];
    assert Walk(edges, p) && p[0] == stack[0] && p[|p| - 1] == next;
  }

  lemma SettleNode(edges: seq<Edge>, finished: seq<int>, node: int)
    requires Settled(edges, finished) && node !in finished
    requires forall v :: Edge(node, v) in edges ==> v in finished
    ensures Settled(edges, finished + [node])
  {
    var all := finished + [node];
    forall i, v | 0 <= i < |all| && Edge(all[i], v) in edges ensures v in all[..i] {
      assert all[..i] == finished[..i];
      if i == |finished| { assert finished[..i] == finished; }
    }
  }

  // ------------------------------------------------------------- completeness

  /** From a finished product every walk goes strictly back in finishing order. */
  lemma {:induction false} WalksGoBack(edges: seq<Edge>, finished: seq<int>, p: seq<int>, i: nat)
    returns (k: nat)
    requires Settled(edges, finished) && Walk(edges, p) && i < |finished| && finished[i] == p[0]
    ensures k <= i && finished[k] == p[|p| - 1] && (|p| > 1 ==> k < i)
    decreases |p|
  {
    if |p| == 1 {
      k := i;
    } else {
      assert Edge(p[0], p[1]) in edges;
      assert p[1] in finished[..i];
      var j :| 0 <= j < i && finished[j] == p[1];
      k := WalksGoBack(edges, finished, p[1..], j);
    }
  }

  /** Hence no closed walk can be reached from a finished product. */
  lemma SettledMeansAcyclic(edges: seq<Edge>, finished: seq<int>, start: int, c: seq<int>)
    requires Settled(edges, finished) && start in finished
    requires ClosedWalk(edges, c)
    ensures !Reachable(edges, start, c[0])
  {
    if Reachable(edges, start, c[0]) {
      var p :| Walk(edges, p) && p[0] == start && p[|p| - 1] == c[0];
      var i :| 0 <= i < |finished| && finished[i] == start;
      var j := WalksGoBack(edges, finished, p, i);
      var k := WalksGoBack(edges, finished, c, j);
      assert false;
    }
  }

  /**
   * Sound and complete: a reported list is a simple cycle reachable from the
   * start, and nothing is reported exactly when no closed walk of any shape is.
   */
  method DetectBomCycle(edges: seq<Edge>, start: int) returns (cycle: Option<seq<int>>)
    ensures cycle.Some? ==> SimpleCycle(edges, cycle.value) && Reachable(edges, start, cycle.value[0])
    ensures cycle.None? <==> !exists c :: ClosedWalk(edges, c) && Reachable(edges, start, c[0])
  {
    var search := new Search(edges, start);
    cycle := search.Dfs(start);
    if cycle.None? {
      forall c | ClosedWalk(edges, c) ensures !Reachable(edges, start, c[0]) {
        SettledMeansAcyclic(edges, search.finished, start, c);
      }
    } else {
      assert ClosedWalk(edges, cycle.value);
    }
  }
}
