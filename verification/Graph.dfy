/** Reachability in a directed graph, and a stack-driven walk of it. */
module Graph {
  import opened Bytes
  import Lists

  type Edges = U32 -> seq<U32>

  /** `path` lists the nodes passed on the way from `root` to `x`. */
  predicate IsPath(succ: Edges, root: U32, path: seq<U32>, x: U32) {
    if path == [] then x == root
    else IsPath(succ, root, path[..|path| - 1], path[|path| - 1]) && x in succ(path[|path| - 1])
  }

  ghost predicate Reachable(succ: Edges, root: U32, x: U32) {
    exists path :: IsPath(succ, root, path, x)
  }

  lemma ChildReachable(succ: Edges, root: U32, x: U32, y: U32)
    requires Reachable(succ, root, x) && y in succ(x)
    ensures Reachable(succ, root, y)
  {
    var path :| IsPath(succ, root, path, x);
    assert (path + [x])[..|path|] == path;
    assert IsPath(succ, root, path + [x], y);
  }

  /** A set that holds the root and is closed under edges holds everything reachable. */
  lemma {:induction false} ClosedHoldsPath(succ: Edges, root: U32, path: seq<U32>, x: U32, closed: set<U32>)
    requires IsPath(succ, root, path, x)
    requires root in closed && forall d, y :: d in closed && y in succ(d) ==> y in closed
    ensures x in closed
    decreases |path|
  {
    if path != [] {
      ClosedHoldsPath(succ, root, path[..|path| - 1], path[|path| - 1], closed);
    }
  }

  /** Where the walk stands: `dirs` are the nodes dealt with, `queue` is still to come. */
  ghost predicate Walking(succ: Edges, root: U32, queue: seq<U32>, visited: set<U32>, dirs: seq<U32>) {
    && Lists.NoDuplicates(dirs)
    && (forall d :: d in visited <==> d in dirs)
    && (forall d :: d in visited ==> Reachable(succ, root, d))
    && (forall d :: d in queue ==> Reachable(succ, root, d))
    && (root in visited || root in queue)
    && (forall d, y :: d in visited && y in succ(d) ==> y in visited || y in queue)
  }

  lemma StartWalk(succ: Edges, root: U32)
    ensures Walking(succ, root, [root], {}, [])
  {
    assert IsPath(succ, root, [], root);
  }

  lemma Popped(queue: seq<U32>)
    requires queue != []
    ensures forall x :: x in queue <==> x in queue[..|queue| - 1] || x == queue[|queue| - 1]
  {
    assert queue == queue[..|queue| - 1] + [queue[|queue| - 1]];
  }

  lemma SkipVisited(succ: Edges, root: U32, queue: seq<U32>, visited: set<U32>, dirs: seq<U32>)
    requires queue != [] && Walking(succ, root, queue, visited, dirs) && queue[|queue| - 1] in visited
    ensures Walking(succ, root, queue[..|queue| - 1], visited, dirs)
  {
    Popped(queue);
  }

  lemma QueuedReachable(succ: Edges, root: U32, queue: seq<U32>, visited: set<U32>, dirs: seq<U32>)
    requires queue != [] && Walking(succ, root, queue, visited, dirs)
    ensures Reachable(succ, root, queue[|queue| - 1])
  {
    Popped(queue);
  }

  lemma VisitOne(succ: Edges, root: U32, queue: seq<U32>, visited: set<U32>, dirs: seq<U32>)
    requires queue != [] && Walking(succ, root, queue, visited, dirs) && queue[|queue| - 1] !in visited
    ensures var dir := queue[|queue| - 1];
      Walking(succ, root, queue[..|queue| - 1] + succ(dir), visited + {dir}, dirs + [dir])
  {
    Popped(queue);
    var dir := queue[|queue| - 1];
    forall d | d in succ(dir)
      ensures Reachable(succ, root, d)
    {
      ChildReachable(succ, root, dir, d);
    }
  }

  lemma AllVisited(succ: Edges, root: U32, visited: set<U32>, dirs: seq<U32>)
    requires Walking(succ, root, [], visited, dirs)
    ensures forall d :: d in dirs <==> Reachable(succ, root, d)
  {
    forall d | Reachable(succ, root, d)
      ensures d in dirs
    {
      var path :| IsPath(succ, root, path, d);
      ClosedHoldsPath(succ, root, path, d, visited);
    }
  }

  /** There are at most 2^32 nodes to visit. */
  lemma {:induction false} BoundedSet(s: set<U32>, n: nat)
    requires n <= 0x1_0000_0000 && forall x :: x in s ==> x < n
    ensures |s| <= n
  {
    if s != {} {
      var x: U32 :| x in s;
      BoundedSet(s - {(n - 1) as U32}, n - 1);
    }
  }
}
