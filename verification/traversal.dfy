/** The two searches the application compares, breadth-first and iterative
    depth-first, over a snapshot of the graph, and the statistics record each
    one hands to the result and comparison panels. */
module Traversal {
  import opened Wrappers
  import opened Graphs

  /** The readings taken around a search: the clock before and after, in
      seconds, and the peak number of bytes traced while it ran. */
  datatype Measurement = Measurement(startTime: real, endTime: real, peakBytes: nat)

  /** The statistics dictionary of a search that ran. */
  datatype Stats = Stats(
    algorithm: string,
    traversalPath: seq<Node>,
    goalPath: seq<Node>,
    nodesVisited: nat,
    executionTime: real,
    memoryUsed: real,
    pathLength: nat)

  /** The statistics slot of a search: empty before any run, the error
      dictionary when the start node was not in the graph, or the statistics. */
  datatype Record = NotRun | Failed(error: string) | Ran(stats: Stats)

  const StartMissing: string := "Start node not in graph"

  /** `if goal`: a goal is in force when it is given and is not empty. */
  predicate GoalActive(goal: Option<Node>) {
    goal.Some? && goal.value != []
  }

  /** The search visited a goal that is in force. */
  predicate Reached(goal: Option<Node>, path: seq<Node>) {
    GoalActive(goal) && goal.value in path
  }

  /** The statistics of a finished search: times in milliseconds, memory in
      kilobytes, and the goal path's length counted in nodes. */
  function MakeStats(algorithm: string, path: seq<Node>, goalPath: seq<Node>,
                     nodesVisited: nat, m: Measurement): (s: Stats)
    ensures s.traversalPath == path && s.goalPath == goalPath
    ensures s.pathLength == |goalPath| && (s.pathLength == 0 <==> goalPath == [])
  {
    Stats(algorithm, path, goalPath, nodesVisited,
          (m.endTime - m.startTime) * 1000.0, m.peakBytes as real / 1024.0,
          if goalPath != [] then |goalPath| else 0)
  }

  /** The sequence read back to front (`list.reverse`). */
  function Reverse(s: seq<Node>): (r: seq<Node>)
    ensures |r| == |s|
    ensures forall i :: 0 <= i < |s| ==> r[i] == s[|s| - 1 - i]
  {
    if s == [] then [] else Reverse(s[1..]) + [s[0]]
  }

  /** The parent map of a search is a tree hanging from `start`: `start` has
      no parent, every other recorded node has a recorded parent with an edge
      to it, and the ghost `depth` of a node is one more than its parent's.
      The depth is what makes the walk up the parent chain finish. */
  ghost predicate ParentForest(g: Graph, start: Node, parent: map<Node, Option<Node>>,
                               depth: map<Node, nat>) {
    && start in parent && parent[start] == None
    && depth.Keys == parent.Keys && depth[start] == 0
    && forall n :: n in parent && n != start ==>
         && parent[n].Some? && parent[n].value in parent
         && g.HasEdge(parent[n].value, n)
         && depth[n] == depth[parent[n].value] + 1
  }

  /** A chain of parent links read back to front is a walk, and since the
      depths along it fall by one at each link it repeats no node. */
  lemma ReversedChainIsWalk(g: Graph, rev: seq<Node>, depth: map<Node, nat>)
    requires |rev| > 0 && rev[0] in depth
    requires forall i :: 0 <= i < |rev| ==> rev[i] in depth && depth[rev[i]] + i == depth[rev[0]]
    requires forall i :: 0 <= i < |rev| - 1 ==> g.HasEdge(rev[i + 1], rev[i])
    ensures g.IsWalkBetween(Reverse(rev), rev[|rev| - 1], rev[0])
    ensures NoDups(Reverse(rev))
    ensures forall n :: n in Reverse(rev) <==> n in rev
  {
    var r := Reverse(rev);
    forall i | 0 <= i < |r| - 1 ensures g.HasEdge(r[i], r[i + 1]) {
      var k := |rev| - 2 - i;
      assert r[i] == rev[k + 1] && r[i + 1] == rev[k];
    }
    ReverseKeepsNoDups(rev, r);
    ReverseSameMembers(rev);
  }

  /** Reading a list back to front keeps it free of repeats. */
  lemma ReverseKeepsNoDups(s: seq<Node>, r: seq<Node>)
    requires r == Reverse(s) && NoDups(s)
    ensures NoDups(r)
  {
    forall i, j | 0 <= i < j < |r| ensures r[i] != r[j] {
      assert r[i] == s[|s| - 1 - i] && r[j] == s[|s| - 1 - j];
    }
  }

  /** The goal path: follow the parents from `goal` until there is none, then
      reverse. The result is a walk from `start` to `goal` along the parent
      tree, repeats no node, and has one node more than the goal's depth. */
  method RebuildGoalPath(g: Graph, start: Node, goal: Node, parent: map<Node, Option<Node>>,
                         ghost depth: map<Node, nat>) returns (goalPath: seq<Node>)
    requires ParentForest(g, start, parent, depth) && goal in parent
    ensures g.IsWalkBetween(goalPath, start, goal)
    ensures NoDups(goalPath)
    ensures |goalPath| == depth[goal] + 1
    ensures AlongParents(parent, goalPath)
  {
    var rev: seq<Node> := [];
    var node: Option<Node> := Some(goal);
    while node.Some?
      invariant UpChain(g, parent, depth, goal, rev)
      invariant |rev| == 0 ==> node == Some(goal)
      invariant |rev| > 0 ==> node == parent[rev[|rev| - 1]]
      invariant node.Some? ==> node.value in parent && depth[node.value] + |rev| == depth[goal]
      decreases if node.Some? then depth[node.value] + 1 else 0
    {
      var n := node.value;
      UpChainStep(g, start, parent, depth, goal, rev, n);
      rev := rev + [n];
      node := parent[n];
    }
    assert rev[|rev| - 1] == start;
    goalPath := Reverse(rev);
    ReversedChainIsWalk(g, rev, depth);
    ReversedLinks(rev, goalPath, parent);
  }

  /** Every node of `goalPath` is recorded, and each one after the first has
      the node before it as its parent. */
  ghost predicate AlongParents(parent: map<Node, Option<Node>>, goalPath: seq<Node>) {
    && (forall n :: n in goalPath ==> n in parent)
    && forall i :: 0 < i < |goalPath| ==> parent[goalPath[i]] == Some(goalPath[i - 1])
  }

  /** Read back to front, a chain of parent links has each node's parent
      just before it. */
  lemma ReversedLinks(rev: seq<Node>, r: seq<Node>, parent: map<Node, Option<Node>>)
    requires r == Reverse(rev) && forall n :: n in rev ==> n in parent
    requires forall i :: 0 <= i < |rev| - 1 ==> parent[rev[i]] == Some(rev[i + 1])
    ensures forall n :: n in r ==> n in parent
    ensures forall i :: 0 < i < |r| ==> parent[r[i]] == Some(r[i - 1])
  {
    forall i | 0 <= i < |r| ensures r[i] in parent {
      assert r[i] == rev[|rev| - 1 - i];
    }
    forall i | 0 < i < |r| ensures parent[r[i]] == Some(r[i - 1]) {
      var k := |rev| - 1 - i;
      assert r[i - 1] == rev[k + 1] && r[i] == rev[k];
    }
  }

  /** `rev` is the chain of parent links climbed from `goal`: each node one
      level above the one before it, and its parent next. */
  ghost predicate UpChain(g: Graph, parent: map<Node, Option<Node>>, depth: map<Node, nat>,
                          goal: Node, rev: seq<Node>) {
    && goal in depth
    && (forall i :: 0 <= i < |rev| ==> rev[i] in parent && rev[i] in depth && depth[rev[i]] + i == depth[goal])
    && (|rev| > 0 ==> rev[0] == goal)
    && (forall i :: 0 <= i < |rev| - 1 ==> g.HasEdge(rev[i + 1], rev[i]) && parent[rev[i]] == Some(rev[i + 1]))
  }

  /** Climbing one more parent link keeps the chain. */
  lemma UpChainStep(g: Graph, start: Node, parent: map<Node, Option<Node>>, depth: map<Node, nat>,
                    goal: Node, rev: seq<Node>, n: Node)
    requires ParentForest(g, start, parent, depth) && UpChain(g, parent, depth, goal, rev)
    requires n in parent && depth[n] + |rev| == depth[goal]
    requires |rev| == 0 ==> n == goal
    requires |rev| > 0 ==> parent[rev[|rev| - 1]] == Some(n)
    ensures UpChain(g, parent, depth, goal, rev + [n])
  {
    var rev' := rev + [n];
    if |rev| > 0 {
      assert rev[|rev| - 1] != start;
    }
    forall i | 0 <= i < |rev'| - 1
      ensures g.HasEdge(rev'[i + 1], rev'[i]) && parent[rev'[i]] == Some(rev'[i + 1])
    {
      if i < |rev| - 1 {
        assert rev'[i + 1] == rev[i + 1] && rev'[i] == rev[i];
      }
    }
  }

  /** The node that finds `n` when the nodes of `seen` are expanded in
      order: the first of them with an edge to `n`. */
  function Discoverer(g: Graph, seen: seq<Node>, n: Node): (r: Option<Node>)
    ensures r.None? <==> forall x :: x in seen ==> !g.HasEdge(x, n)
    ensures r.Some? ==> r.value in seen && g.HasEdge(r.value, n)
  {
    if seen == [] then None
    else if g.HasEdge(seen[0], n) then Some(seen[0])
    else Discoverer(g, seen[1..], n)
  }

  /** `Discoverer` is the earliest node with an edge to `n`: when `seen[k]`
      has one and no node before it does, it is the one found. */
  lemma {:induction false} DiscovererIsEarliest(g: Graph, seen: seq<Node>, n: Node, k: nat)
    requires k < |seen| && g.HasEdge(seen[k], n)
    requires forall j :: 0 <= j < k ==> !g.HasEdge(seen[j], n)
    ensures Discoverer(g, seen, n) == Some(seen[k])
  {
    if k > 0 {
      assert !g.HasEdge(seen[0], n);
      DiscovererIsEarliest(g, seen[1..], n, k - 1);
    }
  }

  /** Expanding one more node changes who found `n` only when nobody had. */
  lemma {:induction false} DiscovererSnoc(g: Graph, seen: seq<Node>, x: Node, n: Node)
    ensures Discoverer(g, seen + [x], n) ==
              if Discoverer(g, seen, n).Some? then Discoverer(g, seen, n)
              else if g.HasEdge(x, n) then Some(x) else None
  {
    if seen != [] {
      assert (seen + [x])[1..] == seen[1..] + [x];
      DiscovererSnoc(g, seen[1..], x, n);
    }
  }

  /** Every successor of an expanded node has been recorded. */
  ghost predicate Covers(g: Graph, expanded: seq<Node>, parent: map<Node, Option<Node>>) {
    forall x, y :: x in expanded && g.HasEdge(x, y) ==> y in parent
  }

  /** The parent of every recorded node but `start` is the first expanded
      node with an edge to it. */
  ghost predicate FirstFinders(g: Graph, start: Node, expanded: seq<Node>,
                               parent: map<Node, Option<Node>>) {
    forall n :: n in parent && n != start ==> parent[n] == Discoverer(g, expanded, n)
  }

  /** Expanding `c`, recording it as the parent of those of its successors
      that had none, keeps every parent the first node to find its child. */
  lemma FindersGrow(g: Graph, start: Node, expanded: seq<Node>, c: Node,
                    parent0: map<Node, Option<Node>>, parent: map<Node, Option<Node>>)
    requires Covers(g, expanded, parent0) && FirstFinders(g, start, expanded, parent0)
    requires forall n :: n in parent0 && n != start ==> parent0[n].Some?
    requires forall n :: n in parent0 ==> n in parent && parent[n] == parent0[n]
    requires forall n :: n in parent && n !in parent0 ==> g.HasEdge(c, n) && parent[n] == Some(c)
    ensures FirstFinders(g, start, expanded + [c], parent)
    ensures (forall y :: g.HasEdge(c, y) ==> y in parent) ==> Covers(g, expanded + [c], parent)
  {
    forall n | n in parent && n != start ensures parent[n] == Discoverer(g, expanded + [c], n) {
      DiscovererSnoc(g, expanded, c, n);
    }
  }

  /** Each node of the goal path after the first is found, during the
      traversal `path`, by the node before it. */
  ghost predicate FoundInTurn(g: Graph, path: seq<Node>, goalPath: seq<Node>) {
    forall i :: 0 < i < |goalPath| ==> Discoverer(g, path, goalPath[i]) == Some(goalPath[i - 1])
  }

  /** A goal path along the parent links is a chain of first finders. */
  lemma GoalPathFound(g: Graph, start: Node, expanded: seq<Node>,
                      parent: map<Node, Option<Node>>, goalPath: seq<Node>)
    requires FirstFinders(g, start, expanded, parent)
    requires goalPath != [] && goalPath[0] == start && NoDups(goalPath)
    requires AlongParents(parent, goalPath)
    ensures FoundInTurn(g, expanded, goalPath)
  {
    forall i | 0 < i < |goalPath| ensures Discoverer(g, expanded, goalPath[i]) == Some(goalPath[i - 1]) {
      assert goalPath[i] in goalPath && goalPath[i] != goalPath[0];
    }
  }

  /** On the graph A -> [B, C], B -> [C], after the traversal A, B, C, the
      goal path to C along first finders is A, C: A found C before B did. */
  lemma FoundInTurnExample(goalPath: seq<Node>)
    requires FoundInTurn(Graph(map["A" := ["B", "C"], "B" := ["C"], "C" := []]), ["A", "B", "C"], goalPath)
    requires goalPath != [] && goalPath[0] == "A" && goalPath[|goalPath| - 1] == "C" && NoDups(goalPath)
    ensures goalPath == ["A", "C"]
  {
    var g := Graph(map["A" := ["B", "C"], "B" := ["C"], "C" := []]);
    var k := |goalPath| - 1;
    assert k > 0;
    assert Discoverer(g, ["A", "B", "C"], "C") == Some("A");
    assert goalPath[k - 1] == "A";
    assert k - 1 == 0;
  }

  // ---------------------------------------------------------------- BFS

  /** The successors a BFS step appends to its queue after looking at the
      first `k` successors, in adjacency order: each one that is neither
      visited nor already waiting, once. */
  function Discovered(succ: seq<Node>, k: nat, visited: set<Node>, queue: seq<Node>): (d: seq<Node>)
    requires k <= |succ|
  {
    if k == 0 then []
    else
      var d := Discovered(succ, k - 1, visited, queue);
      var x := succ[k - 1];
      if x in visited || x in queue || x in d then d else d + [x]
  }

  /** What a BFS step appends: exactly the successors that are neither
      visited nor queued, each once. */
  lemma {:induction false} DiscoveredAreNew(succ: seq<Node>, k: nat, visited: set<Node>, queue: seq<Node>)
    requires k <= |succ|
    ensures forall n :: n in Discovered(succ, k, visited, queue) <==>
                          n in succ[..k] && n !in visited && n !in queue
    ensures NoDups(Discovered(succ, k, visited, queue))
  {
    if k > 0 {
      DiscoveredAreNew(succ, k - 1, visited, queue);
      assert succ[..k] == succ[..k - 1] + [succ[k - 1]];
    }
  }

  /** `Discovered` looks only at which nodes are visited or waiting. */
  lemma {:induction false} DiscoveredSameSeen(succ: seq<Node>, k: nat, visited: set<Node>,
                                              queue: seq<Node>, seen: seq<Node>)
    requires k <= |succ|
    requires forall n :: n in visited || n in queue <==> n in seen
    ensures Discovered(succ, k, visited, queue) == Discovered(succ, k, {}, seen)
  {
    if k > 0 {
      DiscoveredSameSeen(succ, k - 1, visited, queue, seen);
    }
  }

  /** The order in which a FIFO search that expands the nodes of `expanded`
      in turn discovers nodes: `start`, then the successors of each expanded
      node in adjacency order, each node at its first appearance only. */
  function Discovery(g: Graph, start: Node, expanded: seq<Node>): (d: seq<Node>)
    ensures |d| > 0 && d[0] == start
    decreases |expanded|
  {
    if expanded == [] then [start]
    else
      var before := Discovery(g, start, expanded[..|expanded| - 1]);
      var x := expanded[|expanded| - 1];
      before + Discovered(g.Succ(x), |g.Succ(x)|, {}, before)
  }

  /** Expanding one more node appends its successors not discovered yet. */
  lemma DiscoverySnoc(g: Graph, start: Node, expanded: seq<Node>, x: Node)
    ensures var before := Discovery(g, start, expanded);
            Discovery(g, start, expanded + [x]) == before + Discovered(g.Succ(x), |g.Succ(x)|, {}, before)
  {
    assert (expanded + [x])[..|expanded|] == expanded;
  }

  /** The discovery order lists `start` and the successors of the expanded
      nodes, and nothing else, each once. */
  lemma {:induction false} DiscoveryNodes(g: Graph, start: Node, expanded: seq<Node>)
    ensures NoDups(Discovery(g, start, expanded))
    ensures forall n :: n in Discovery(g, start, expanded) <==>
              n == start || exists x :: x in expanded && g.HasEdge(x, n)
    decreases |expanded|
  {
    if expanded != [] {
      var e0, x := expanded[..|expanded| - 1], expanded[|expanded| - 1];
      assert expanded == e0 + [x];
      DiscoveryNodes(g, start, e0);
      var before := Discovery(g, start, e0);
      var added := Discovered(g.Succ(x), |g.Succ(x)|, {}, before);
      DiscoveredAreNew(g.Succ(x), |g.Succ(x)|, {}, before);
      assert g.Succ(x)[..|g.Succ(x)|] == g.Succ(x);
      assert Discovery(g, start, expanded) == before + added;
      forall i, j | 0 <= i < j < |before + added| ensures (before + added)[i] != (before + added)[j] {
        if j >= |before| && i < |before| {
          assert (before + added)[j] in added && (before + added)[i] in before;
        } else if i >= |before| {
          assert (before + added)[i] == added[i - |before|] && (before + added)[j] == added[j - |before|];
        }
      }
      forall n ensures n in before + added <==> n == start || exists y :: y in expanded && g.HasEdge(y, n) {
        if exists y :: y in expanded && g.HasEdge(y, n) {
          var y :| y in expanded && g.HasEdge(y, n);
          if y != x {
            assert y in e0;
          }
        }
        if n in before && n != start {
          var y :| y in e0 && g.HasEdge(y, n);
          assert y in expanded;
        }
        if n in added {
          assert x in expanded && g.HasEdge(x, n);
        }
      }
    }
  }

  /** The traversal path is the discovery order: each visited node is the
      next one discovered by expanding the nodes visited before it. */
  ghost predicate FifoOrder(g: Graph, start: Node, path: seq<Node>) {
    forall i :: 0 <= i < |path| ==>
      i < |Discovery(g, start, path[..i])| && Discovery(g, start, path[..i])[i] == path[i]
  }

  /** Visiting the next node of the discovery order keeps the path in it. */
  lemma FifoVisit(g: Graph, start: Node, path: seq<Node>, waiting: seq<Node>)
    requires FifoOrder(g, start, path) && waiting != []
    requires path + waiting == Discovery(g, start, path)
    ensures FifoOrder(g, start, path + [waiting[0]])
  {
    var path' := path + [waiting[0]];
    forall i | 0 <= i < |path'|
      ensures i < |Discovery(g, start, path'[..i])| && Discovery(g, start, path'[..i])[i] == path'[i]
    {
      if i < |path| {
        assert path'[..i] == path[..i] && path'[i] == path[i];
      } else {
        assert path'[..i] == path;
        assert (path + waiting)[|path|] == waiting[0];
      }
    }
  }

  /** Expanding the head of the queue, appending what it discovers, keeps the
      visited nodes followed by the queue equal to the discovery order. */
  lemma FifoExpand(g: Graph, start: Node, visited: set<Node>, path: seq<Node>,
                   waiting: seq<Node>, queue: seq<Node>)
    requires waiting != [] && path + waiting == Discovery(g, start, path)
    requires forall n :: n in visited <==> n in path
    requires var c := waiting[0];
             queue == waiting[1..] + Discovered(g.Succ(c), |g.Succ(c)|, visited + {c}, waiting[1..])
    ensures path + [waiting[0]] + queue == Discovery(g, start, path + [waiting[0]])
  {
    var c, rest := waiting[0], waiting[1..];
    var before := Discovery(g, start, path);
    assert waiting == [c] + rest;
    assert forall n :: n in before <==> n in path || n == c || n in rest;
    DiscoveredSameSeen(g.Succ(c), |g.Succ(c)|, visited + {c}, rest, before);
    DiscoverySnoc(g, start, path, c);
    ConcatRegroup(path, c, rest, Discovered(g.Succ(c), |g.Succ(c)|, {}, before));
  }

  lemma ConcatRegroup(a: seq<Node>, x: Node, b: seq<Node>, c: seq<Node>)
    ensures a + [x] + (b + c) == (a + ([x] + b)) + c
  {
  }

  /** On the graph A -> [B, C], a traversal from A in discovery order
      visits B second: C, in the same layer, is discovered after B. */
  lemma FifoOrderExample(path: seq<Node>)
    requires FifoOrder(Graph(map["A" := ["B", "C"], "B" := [], "C" := []]), "A", path)
    requires |path| >= 2
    ensures path[..2] == ["A", "B"]
  {
    var g := Graph(map["A" := ["B", "C"], "B" := [], "C" := []]);
    assert g.Succ("A") == ["B", "C"];
    assert Discovered(["B", "C"], 1, {}, ["A"]) == ["B"];
    DiscoverySnoc(g, "A", [], "A");
    assert [] + ["A"] == ["A"];
    assert Discovery(g, "A", path[..0])[0] == path[0];
    assert path[..1] == ["A"];
    assert Discovery(g, "A", path[..1])[1] == path[1];
  }

  /** The inner loop of a BFS step: every successor of `current` that is not
      visited and not queued joins the back of the queue, and `current` is
      recorded as its parent, one level deeper. No parent is written twice. */
  method EnqueueSuccessors(g: Graph, start: Node, current: Node, visited: set<Node>,
                           queue0: seq<Node>, parent0: map<Node, Option<Node>>,
                           ghost depth0: map<Node, nat>)
    returns (queue: seq<Node>, parent: map<Node, Option<Node>>, ghost depth: map<Node, nat>)
    requires depth0.Keys == parent0.Keys && current in parent0
    requires forall n :: n in parent0 ==> n in visited || n in queue0
    ensures queue == queue0 + Discovered(g.Succ(current), |g.Succ(current)|, visited, queue0)
    ensures forall n :: n in queue[|queue0|..] <==> g.HasEdge(current, n) && n !in visited && n !in queue0
    ensures NoDups(queue[|queue0|..])
    ensures depth.Keys == parent.Keys
    ensures forall n :: n in parent <==> n in parent0 || n in queue[|queue0|..]
    ensures forall n :: n in parent0 ==> parent[n] == parent0[n] && depth[n] == depth0[n]
    ensures forall n :: n in queue[|queue0|..] ==>
              n !in parent0 && parent[n] == Some(current) && depth[n] == depth0[current] + 1
  {
    var succ := g.Succ(current);
    ghost var added: seq<Node> := [];
    queue, parent, depth := queue0, parent0, depth0;
    for k := 0 to |succ|
      invariant queue == queue0 + added && added == Discovered(succ, k, visited, queue0)
      invariant depth.Keys == parent.Keys
      invariant forall n :: n in parent <==> n in parent0 || n in added
      invariant forall n :: n in parent0 ==> parent[n] == parent0[n] && depth[n] == depth0[n]
      invariant forall n :: n in added ==>
                  n !in parent0 && parent[n] == Some(current) && depth[n] == depth0[current] + 1
    {
      var neighbor := succ[k];
      if neighbor !in visited && neighbor !in queue {
        assert neighbor !in parent;
        queue := queue + [neighbor];
        added := added + [neighbor];
        parent := parent[neighbor := Some(current)];
        depth := depth[neighbor := depth0[current] + 1];
      }
    }
    assert succ[..|succ|] == succ;
    assert queue[|queue0|..] == added;
    DiscoveredAreNew(succ, |succ|, visited, queue0);
  }

  /** Recording `current` as the parent of nodes that are its successors and
      had no parent keeps the parent map a tree of reachable nodes. */
  lemma ForestGrows(g: Graph, start: Node, current: Node,
                    parent0: map<Node, Option<Node>>, depth0: map<Node, nat>,
                    parent: map<Node, Option<Node>>, depth: map<Node, nat>)
    requires ParentForest(g, start, parent0, depth0) && current in parent0
    requires AllReachable(g, start, parent0)
    requires depth.Keys == parent.Keys
    requires forall n :: n in parent0 ==> n in parent && parent[n] == parent0[n] && depth[n] == depth0[n]
    requires forall n :: n in parent && n !in parent0 ==>
               g.HasEdge(current, n) && parent[n] == Some(current) && depth[n] == depth0[current] + 1
    ensures ParentForest(g, start, parent, depth)
    ensures AllReachable(g, start, parent)
  {
    forall n | n in parent ensures g.Reachable(start, n) {
      if n !in parent0 {
        ReachableStep(g, start, current, n);
      }
    }
  }


  /** How a BFS finds a shortest goal path. Suppose every node recorded at a
      depth below the target's has been expanded, and expanding a node records
      each of its successors at most one level deeper. Then no walk from
      `start` reaches the target in fewer steps than the target's depth. */
  lemma ShortestByLevels(g: Graph, start: Node, parent: map<Node, Option<Node>>,
                         depth: map<Node, nat>, expanded: set<Node>, target: Node)
    requires ParentForest(g, start, parent, depth) && target in parent
    requires forall x :: x in expanded ==> x in parent
    requires forall x, y :: x in expanded && g.HasEdge(x, y) ==> y in parent && depth[y] <= depth[x] + 1
    requires forall x :: x in parent && depth[x] < depth[target] ==> x in expanded
    ensures Shallowest(g, start, target, depth)
  {
    forall w | g.IsWalkBetween(w, start, target) ensures depth[target] <= |w| - 1 {
      DepthAtMostWalk(g, start, parent, depth, expanded, depth[target], target, w);
    }
  }

  /** Along a walk from `start`, the `i`-th node is recorded at depth at most
      `i`, as long as the walk has not yet reached the `bound` level. */
  lemma {:induction false} WalkLevels(g: Graph, start: Node, parent: map<Node, Option<Node>>,
                                      depth: map<Node, nat>, expanded: set<Node>, bound: nat,
                                      w: seq<Node>, i: nat)
    requires ParentForest(g, start, parent, depth)
    requires forall x :: x in expanded ==> x in parent
    requires forall x, y :: x in expanded && g.HasEdge(x, y) ==> y in parent && depth[y] <= depth[x] + 1
    requires forall x :: x in parent && depth[x] < bound ==> x in expanded
    requires g.IsWalk(w) && w[0] == start && i < |w|
    ensures bound <= i || (w[i] in parent && depth[w[i]] <= i)
  {
    if i > 0 {
      WalkLevels(g, start, parent, depth, expanded, bound, w, i - 1);
      if bound > i - 1 && depth[w[i - 1]] < bound {
        assert g.HasEdge(w[i - 1], w[i]);
      }
    }
  }

  /** The parent map holds exactly the visited and the waiting nodes; nothing
      waits twice, and nothing visited waits. */
  ghost predicate Frontier(parent: map<Node, Option<Node>>, visited: set<Node>, queue: seq<Node>) {
    && (forall n :: n in parent <==> n in visited || n in queue)
    && NoDups(queue)
    && (forall n :: n in queue ==> n !in visited)
  }

  /** The traversal path lists the visited nodes, each once, `start` first. */
  ghost predicate Visits(start: Node, visited: set<Node>, path: seq<Node>) {
    && (forall n :: n in visited <==> n in path)
    && NoDups(path)
    && (path != [] ==> path[0] == start)
  }

  /** Before the first visit only `start` is waiting. */
  ghost predicate TraversalOf(start: Node, visited: set<Node>, queue: seq<Node>, path: seq<Node>) {
    && Visits(start, visited, path)
    && (path == [] ==> queue == [start])
  }

  /** No walk from `start` to `target` has fewer edges than its depth. */
  ghost predicate Shallowest(g: Graph, start: Node, target: Node, depth: map<Node, nat>) {
    target in depth && forall w :: g.IsWalkBetween(w, start, target) ==> depth[target] <= |w| - 1
  }

  /** Every node reachable from `start` is on the path. */
  ghost predicate Complete(g: Graph, start: Node, path: seq<Node>) {
    forall n :: g.Reachable(start, n) ==> n in path
  }

  ghost predicate AllReachable(g: Graph, start: Node, parent: map<Node, Option<Node>>) {
    forall n :: n in parent ==> g.Reachable(start, n)
  }

  /** Every visited node has had all its successors recorded, at most one
      level deeper than itself. */
  ghost predicate Expanded(g: Graph, visited: set<Node>, parent: map<Node, Option<Node>>,
                           depth: map<Node, nat>) {
    forall x, y :: x in visited && g.HasEdge(x, y) ==>
      x in depth && y in parent && y in depth && depth[y] <= depth[x] + 1
  }

  /** The queue is ordered by depth and spans at most two levels, and no
      visited node is deeper than the head of the queue. */
  ghost predicate Levels(visited: set<Node>, queue: seq<Node>, depth: map<Node, nat>) {
    && (forall n :: n in queue ==> n in depth)
    && (forall n :: n in visited ==> n in depth)
    && (forall i, j :: 0 <= i < j < |queue| ==> depth[queue[i]] <= depth[queue[j]])
    && (forall j :: 0 <= j < |queue| ==> depth[queue[j]] <= depth[queue[0]] + 1)
    && (queue != [] ==> forall x :: x in visited ==> depth[x] <= depth[queue[0]])
  }

  ghost predicate WithinVertices(g: Graph, visited: set<Node>, queue: seq<Node>) {
    visited <= g.Vertices() && forall n :: n in queue ==> n in g.Vertices()
  }

  /** What holds of a BFS each time it is about to take the next node off
      its queue; no goal in force has been visited yet. */
  ghost predicate BfsInv(g: Graph, start: Node, goal: Option<Node>, visited: set<Node>,
                         queue: seq<Node>, path: seq<Node>,
                         parent: map<Node, Option<Node>>, depth: map<Node, nat>) {
    && ParentForest(g, start, parent, depth)
    && Frontier(parent, visited, queue)
    && TraversalOf(start, visited, queue, path)
    && AllReachable(g, start, parent)
    && Expanded(g, visited, parent, depth)
    && Levels(visited, queue, depth)
    && !Reached(goal, path)
    && WithinVertices(g, visited, queue)
  }

  /** Before the first step: only `start`, waiting, with no parent. */
  lemma BfsStart(g: Graph, start: Node, goal: Option<Node>)
    requires g.HasNode(start)
    ensures BfsInv(g, start, goal, {}, [start], [], map[start := None], map[start := 0])
  {
    ReachableFromItself(g, start);
  }

  /** The head of the queue is a recorded node that has not been visited. */
  lemma BfsHead(g: Graph, start: Node, goal: Option<Node>, visited: set<Node>,
                queue: seq<Node>, path: seq<Node>,
                parent: map<Node, Option<Node>>, depth: map<Node, nat>)
    requires BfsInv(g, start, goal, visited, queue, path, parent, depth) && queue != []
    ensures queue[0] in parent && queue[0] !in visited
    ensures depth.Keys == parent.Keys
    ensures forall n :: n in parent ==> n in visited + {queue[0]} || n in queue[1..]
    ensures g.Vertices() - (visited + {queue[0]}) < g.Vertices() - visited
  {
    assert forall n :: n in queue <==> n == queue[0] || n in queue[1..];
  }

  /** Expanding the head of the queue, when it is not the goal, keeps the BFS
      invariant. */
  lemma BfsExpand(g: Graph, start: Node, goal: Option<Node>, visited: set<Node>,
                  waiting: seq<Node>, path: seq<Node>,
                  parent0: map<Node, Option<Node>>, depth0: map<Node, nat>,
                  queue: seq<Node>, parent: map<Node, Option<Node>>, depth: map<Node, nat>)
    requires BfsInv(g, start, goal, visited, waiting, path, parent0, depth0)
    requires waiting != [] && !(GoalActive(goal) && waiting[0] == goal.value)
    requires var current, queue0 := waiting[0], waiting[1..];
             && queue == queue0 + Discovered(g.Succ(current), |g.Succ(current)|, visited + {current}, queue0)
             && (forall n :: n in queue[|queue0|..] <==>
                   g.HasEdge(current, n) && n !in visited + {current} && n !in queue0)
             && NoDups(queue[|queue0|..])
             && depth.Keys == parent.Keys
             && (forall n :: n in parent <==> n in parent0 || n in queue[|queue0|..])
             && (forall n :: n in parent0 ==> parent[n] == parent0[n] && depth[n] == depth0[n])
             && (forall n :: n in queue[|queue0|..] ==>
                   n !in parent0 && parent[n] == Some(current) && depth[n] == depth0[current] + 1)
    ensures BfsInv(g, start, goal, visited + {waiting[0]}, queue, path + [waiting[0]], parent, depth)
  {
    var current, queue0 := waiting[0], waiting[1..];
    var added := queue[|queue0|..];
    assert queue == queue0 + added;
    assert forall n :: n in added ==> g.HasEdge(current, n);
    ForestGrows(g, start, current, parent0, depth0, parent, depth);
    ExpandFrontier(g, parent0, parent, visited, waiting, added, queue);
    VisitNext(start, visited, path, waiting[0]);
    assert TraversalOf(start, visited + {current}, queue, path + [current]);
    ExpandExpanded(g, visited, waiting, parent0, depth0, parent, depth, added);
    ExpandLevels(visited, waiting, depth0, depth, added, queue);
    ExpandWithin(g, visited, waiting, added, queue);
  }

  lemma ExpandWithin(g: Graph, visited: set<Node>, waiting: seq<Node>, added: seq<Node>, queue: seq<Node>)
    requires WithinVertices(g, visited, waiting) && waiting != []
    requires queue == waiting[1..] + added
    requires forall n :: n in added ==> g.HasEdge(waiting[0], n)
    ensures WithinVertices(g, visited + {waiting[0]}, queue)
  {
    assert forall n :: n in queue ==> n in waiting || n in added;
  }

  lemma ExpandFrontier(g: Graph, parent0: map<Node, Option<Node>>, parent: map<Node, Option<Node>>,
                       visited: set<Node>, waiting: seq<Node>, added: seq<Node>, queue: seq<Node>)
    requires Frontier(parent0, visited, waiting) && waiting != []
    requires queue == waiting[1..] + added && NoDups(added)
    requires forall n :: n in added <==>
               g.HasEdge(waiting[0], n) && n !in visited + {waiting[0]} && n !in waiting[1..]
    requires forall n :: n in parent <==> n in parent0 || n in added
    ensures Frontier(parent, visited + {waiting[0]}, queue)
  {
    var q0 := waiting[1..];
    assert forall n :: n in waiting <==> n == waiting[0] || n in q0;
    assert forall n :: n in queue <==> n in q0 || n in added;
    forall i, j | 0 <= i < j < |queue| ensures queue[i] != queue[j] {
      if j < |q0| {
        assert queue[i] == waiting[i + 1] && queue[j] == waiting[j + 1];
      } else if i >= |q0| {
        assert queue[i] == added[i - |q0|] && queue[j] == added[j - |q0|];
      } else {
        assert queue[i] in q0 && queue[j] in added;
      }
    }
  }

  /** Visiting one more node that is not yet visited (`start`, if it is the
      first) keeps the traversal path a list of the visited nodes. */
  lemma VisitNext(start: Node, visited: set<Node>, path: seq<Node>, current: Node)
    requires Visits(start, visited, path) && current !in visited
    requires path == [] ==> current == start
    ensures Visits(start, visited + {current}, path + [current])
  {
    var path' := path + [current];
    assert forall n :: n in path' <==> n in path || n == current;
    assert path'[0] == start;
  }


  lemma ExpandExpanded(g: Graph, visited: set<Node>, waiting: seq<Node>,
                       parent0: map<Node, Option<Node>>, depth0: map<Node, nat>,
                       parent: map<Node, Option<Node>>, depth: map<Node, nat>, added: seq<Node>)
    requires Expanded(g, visited, parent0, depth0) && Levels(visited, waiting, depth0)
    requires Frontier(parent0, visited, waiting) && waiting != []
    requires waiting[0] in parent0 && depth0.Keys == parent0.Keys
    requires forall n :: n in added <==>
               g.HasEdge(waiting[0], n) && n !in visited + {waiting[0]} && n !in waiting[1..]
    requires forall n :: n in parent <==> n in parent0 || n in added
    requires forall n :: n in parent0 ==> n in depth && depth[n] == depth0[n]
    requires forall n :: n in added ==> n in depth && depth[n] == depth0[waiting[0]] + 1
    ensures Expanded(g, visited + {waiting[0]}, parent, depth)
  {
    var c := waiting[0];
    forall y | g.HasEdge(c, y) ensures y in parent && y in depth && depth[y] <= depth[c] + 1 {
      if y in visited || y == c {
      } else if y in waiting[1..] {
        var j :| 0 <= j < |waiting[1..]| && waiting[1..][j] == y;
        assert waiting[j + 1] == y;
      }
    }
  }

  lemma ExpandLevels(visited: set<Node>, waiting: seq<Node>, depth0: map<Node, nat>,
                     depth: map<Node, nat>, added: seq<Node>, queue: seq<Node>)
    requires Levels(visited, waiting, depth0) && waiting != []
    requires queue == waiting[1..] + added
    requires forall n :: n in depth0 ==> n in depth && depth[n] == depth0[n]
    requires forall n :: n in added ==> n in depth && depth[n] == depth0[waiting[0]] + 1
    ensures Levels(visited + {waiting[0]}, queue, depth)
  {
    var c, q0 := waiting[0], waiting[1..];
    forall i | 0 <= i < |queue| ensures queue[i] in depth && depth0[c] <= depth[queue[i]] <= depth0[c] + 1 {
      if i < |q0| {
        assert queue[i] == waiting[i + 1];
      } else {
        assert queue[i] in added;
      }
    }
    forall i, j | 0 <= i < j < |queue| ensures depth[queue[i]] <= depth[queue[j]] {
      if j < |q0| {
        assert queue[i] == waiting[i + 1] && queue[j] == waiting[j + 1];
      } else {
        assert queue[j] in added;
      }
    }
  }

  /** The chain of parent links up from `n` is a walk from `start` with as
      many edges as the depth of `n`. */
  lemma {:induction false} ForestWalk(g: Graph, start: Node, parent: map<Node, Option<Node>>,
                                      depth: map<Node, nat>, n: Node) returns (w: seq<Node>)
    requires ParentForest(g, start, parent, depth) && n in parent
    ensures g.IsWalkBetween(w, start, n) && |w| == depth[n] + 1
    decreases depth[n]
  {
    if n == start {
      w := [start];
    } else {
      var p := parent[n].value;
      var w0 := ForestWalk(g, start, parent, depth, p);
      w := w0 + [n];
      forall i | 0 <= i < |w| - 1 ensures g.HasEdge(w[i], w[i + 1]) {
        if i < |w0| - 1 { assert w[i] == w0[i] && w[i + 1] == w0[i + 1]; }
      }
    }
  }

  /** A path whose nodes are recorded at depths that never decrease. */
  ghost predicate PathLayered(path: seq<Node>, depth: map<Node, nat>) {
    && (forall x :: x in path ==> x in depth)
    && forall i, j :: 0 <= i < j < |path| ==> depth[path[i]] <= depth[path[j]]
  }

  /** Where a BFS stops, level by level: the path is layered by depth, the
      nodes in `done` are expanded and on the path, and every node recorded
      shallower than the last one visited is in `done`. */
  ghost predicate LayeredEnd(g: Graph, start: Node, parent: map<Node, Option<Node>>,
                             depth: map<Node, nat>, done: set<Node>, path: seq<Node>) {
    && ParentForest(g, start, parent, depth)
    && path != [] && PathLayered(path, depth)
    && (forall x :: x in path ==> x in parent)
    && (forall x :: x in done ==> x in parent && x in path)
    && (forall x, y :: x in done && g.HasEdge(x, y) ==> y in parent && depth[y] <= depth[x] + 1)
    && (forall y :: y in parent && depth[y] < depth[path[|path| - 1]] ==> y in done)
  }

  /** The path visits nodes in order of their distance from `start`: no node
      on it is farther than one after it, and every node closer than its last
      one is on it. */
  ghost predicate VisitsByDistance(g: Graph, start: Node, path: seq<Node>) {
    && (forall i, j, k: nat :: 0 <= i < j < |path| && g.WithinSteps(start, path[j], k) ==>
          g.WithinSteps(start, path[i], k))
    && (|path| > 0 ==>
          forall n, k: nat :: g.WithinSteps(start, n, k) && !g.WithinSteps(start, path[|path| - 1], k) ==>
            n in path)
  }

  /** A BFS that stops level by level visits nodes in order of their
      distance from `start`. */
  lemma LayeredOrder(g: Graph, start: Node, parent: map<Node, Option<Node>>,
                     depth: map<Node, nat>, done: set<Node>, path: seq<Node>)
    requires LayeredEnd(g, start, parent, depth, done, path)
    ensures VisitsByDistance(g, start, path)
  {
    var last := path[|path| - 1];
    assert last in path;
    forall i, j, k: nat | 0 <= i < j < |path| && g.WithinSteps(start, path[j], k)
      ensures g.WithinSteps(start, path[i], k)
    {
      PathDepthIsDistance(g, start, parent, depth, done, path, j, k);
      assert path[i] in path && depth[path[i]] <= depth[path[j]];
      WithinDepth(g, start, parent, depth, path[i], k);
    }
    forall n, k: nat | g.WithinSteps(start, n, k) && !g.WithinSteps(start, last, k)
      ensures n in path
    {
      if depth[last] <= k {
        WithinDepth(g, start, parent, depth, last, k);
      }
      var w :| g.IsWalkBetween(w, start, n) && |w| <= k + 1;
      LayeredCloser(g, start, parent, depth, done, depth[last], w);
    }
  }

  /** A node is within as many steps as its depth in the parent tree. */
  lemma WithinDepth(g: Graph, start: Node, parent: map<Node, Option<Node>>,
                    depth: map<Node, nat>, n: Node, k: nat)
    requires ParentForest(g, start, parent, depth) && n in parent && depth[n] <= k
    ensures g.WithinSteps(start, n, k)
  {
    var w := ForestWalk(g, start, parent, depth, n);
    assert g.IsWalkBetween(w, start, n) && |w| <= k + 1;
  }

  /** A node on the path is no deeper than any walk to it is long. */
  lemma PathDepthIsDistance(g: Graph, start: Node, parent: map<Node, Option<Node>>,
                            depth: map<Node, nat>, done: set<Node>, path: seq<Node>, j: nat, k: nat)
    requires LayeredEnd(g, start, parent, depth, done, path)
    requires j < |path| && g.WithinSteps(start, path[j], k)
    ensures depth[path[j]] <= k
  {
    var last := path[|path| - 1];
    assert path[j] in path;
    assert depth[path[j]] <= depth[last] by {
      if j < |path| - 1 { assert depth[path[j]] <= depth[path[|path| - 1]]; }
    }
    var w :| g.IsWalkBetween(w, start, path[j]) && |w| <= k + 1;
    DepthAtMostWalk(g, start, parent, depth, done, depth[last], path[j], w);
  }

  /** A node recorded no deeper than `bound` is no deeper than any walk to
      it is long, when every node recorded shallower than `bound` has been
      expanded. */
  lemma DepthAtMostWalk(g: Graph, start: Node, parent: map<Node, Option<Node>>,
                        depth: map<Node, nat>, done: set<Node>, bound: nat, n: Node, w: seq<Node>)
    requires ParentForest(g, start, parent, depth)
    requires forall x :: x in done ==> x in parent
    requires forall x, y :: x in done && g.HasEdge(x, y) ==> y in parent && depth[y] <= depth[x] + 1
    requires forall x :: x in parent && depth[x] < bound ==> x in done
    requires n in parent && depth[n] <= bound && g.IsWalkBetween(w, start, n)
    ensures depth[n] <= |w| - 1
  {
    WalkLevels(g, start, parent, depth, done, bound, w, |w| - 1);
  }

  /** A node that a walk from `start` reaches in fewer steps than `bound` has
      been expanded, when every node recorded shallower than `bound` has. */
  lemma LayeredCloser(g: Graph, start: Node, parent: map<Node, Option<Node>>,
                      depth: map<Node, nat>, done: set<Node>, bound: nat, w: seq<Node>)
    requires ParentForest(g, start, parent, depth)
    requires forall x :: x in done ==> x in parent
    requires forall x, y :: x in done && g.HasEdge(x, y) ==> y in parent && depth[y] <= depth[x] + 1
    requires forall x :: x in parent && depth[x] < bound ==> x in done
    requires g.IsWalk(w) && w[0] == start && |w| - 1 < bound
    ensures w[|w| - 1] in done
  {
    WalkLevels(g, start, parent, depth, done, bound, w, |w| - 1);
  }

  /** Visiting the head of the queue keeps the path layered. */
  lemma LayeredVisit(g: Graph, start: Node, goal: Option<Node>, visited: set<Node>,
                     waiting: seq<Node>, path: seq<Node>,
                     parent: map<Node, Option<Node>>, depth: map<Node, nat>)
    requires BfsInv(g, start, goal, visited, waiting, path, parent, depth) && waiting != []
    requires PathLayered(path, depth)
    ensures PathLayered(path + [waiting[0]], depth)
  {
    var x := waiting[0];
    assert x in waiting;
    assert x in depth;
    assert forall y :: y in path ==> y in visited;
    assert forall y :: y in visited ==> depth[y] <= depth[x];
    LayeredSnoc(path, depth, x);
  }

  /** A node recorded no shallower than any node of a layered path can be
      appended to it. */
  lemma LayeredSnoc(path: seq<Node>, depth: map<Node, nat>, x: Node)
    requires PathLayered(path, depth) && x in depth
    requires forall y :: y in path ==> depth[y] <= depth[x]
    ensures PathLayered(path + [x], depth)
  {
    var path' := path + [x];
    forall i, j | 0 <= i < j < |path'| ensures depth[path'[i]] <= depth[path'[j]] {
      if j == |path| {
        assert path'[i] == path[i] && path[i] in path;
      } else {
        assert path'[i] == path[i] && path'[j] == path[j];
      }
    }
  }

  /** Recording new nodes does not change the depths along the path. */
  lemma LayeredKeep(path: seq<Node>, depth0: map<Node, nat>, depth: map<Node, nat>)
    requires PathLayered(path, depth0)
    requires forall n :: n in depth0 ==> n in depth && depth[n] == depth0[n]
    ensures PathLayered(path, depth)
  {
  }

  /** A BFS that visits the goal stops level by level. */
  lemma LayeredGoal(g: Graph, start: Node, goal: Option<Node>, visited: set<Node>,
                    waiting: seq<Node>, path: seq<Node>,
                    parent: map<Node, Option<Node>>, depth: map<Node, nat>)
    requires BfsInv(g, start, goal, visited, waiting, path, parent, depth) && waiting != []
    requires PathLayered(path + [waiting[0]], depth)
    ensures LayeredEnd(g, start, parent, depth, visited, path + [waiting[0]])
  {
    HeadIsShallowest(visited, waiting, parent, depth);
    assert waiting[0] in parent;
    assert forall x :: x in path + [waiting[0]] ==> x in path || x == waiting[0];
  }

  /** A BFS whose queue ran dry stops level by level. */
  lemma LayeredExhausted(g: Graph, start: Node, goal: Option<Node>, visited: set<Node>,
                         path: seq<Node>, parent: map<Node, Option<Node>>, depth: map<Node, nat>)
    requires BfsInv(g, start, goal, visited, [], path, parent, depth)
    requires PathLayered(path, depth)
    ensures LayeredEnd(g, start, parent, depth, visited, path)
  {
  }

  /** Visiting the goal, which expands nothing, keeps every parent the first
      node to find its child. */
  lemma BfsFindersGoal(g: Graph, start: Node, goal: Option<Node>, visited: set<Node>,
                       waiting: seq<Node>, path: seq<Node>,
                       parent: map<Node, Option<Node>>, depth: map<Node, nat>)
    requires BfsInv(g, start, goal, visited, waiting, path, parent, depth) && waiting != []
    requires Covers(g, path, parent) && FirstFinders(g, start, path, parent)
    ensures FirstFinders(g, start, path + [waiting[0]], parent)
  {
    FindersGrow(g, start, path, waiting[0], parent, parent);
  }

  /** Expanding the head of the queue keeps every parent the first node to
      find its child, and every successor of an expanded node recorded. */
  lemma BfsFindersGrow(g: Graph, start: Node, goal: Option<Node>, visited: set<Node>,
                       waiting: seq<Node>, path: seq<Node>,
                       parent0: map<Node, Option<Node>>, depth0: map<Node, nat>,
                       queue: seq<Node>, parent: map<Node, Option<Node>>, depth: map<Node, nat>)
    requires BfsInv(g, start, goal, visited, waiting, path, parent0, depth0) && waiting != []
    requires BfsInv(g, start, goal, visited + {waiting[0]}, queue, path + [waiting[0]], parent, depth)
    requires Covers(g, path, parent0) && FirstFinders(g, start, path, parent0)
    requires |waiting| - 1 <= |queue|
    requires forall n :: n in parent <==> n in parent0 || n in queue[|waiting| - 1..]
    requires forall n :: n in parent0 ==> parent[n] == parent0[n]
    requires forall n :: n in queue[|waiting| - 1..] ==>
               g.HasEdge(waiting[0], n) && parent[n] == Some(waiting[0])
    ensures Covers(g, path + [waiting[0]], parent) && FirstFinders(g, start, path + [waiting[0]], parent)
  {
    assert forall y :: g.HasEdge(waiting[0], y) ==> y in parent;
    FindersGrow(g, start, path, waiting[0], parent0, parent);
  }

  /** The loop of `breadth_first_search`, from enqueuing `start` until the
      goal is visited or the queue runs dry: it ends having visited the nodes
      level by level, so that none is farther from `start` than one after
      it. */
  method BreadthFirstLoop(g: Graph, start: Node, goal: Option<Node>)
    returns (visited: set<Node>, path: seq<Node>, parent: map<Node, Option<Node>>,
             ghost depth: map<Node, nat>, nodesVisited: nat)
    requires g.HasNode(start)
    ensures SearchDone(g, start, goal, visited, path, parent, depth, true)
    ensures VisitsByDistance(g, start, path)
    ensures FifoOrder(g, start, path) && FirstFinders(g, start, path, parent)
    ensures nodesVisited == |path|
  {
    visited := {};
    var queue: seq<Node> := [start];
    path := [];
    parent := map[start := None];
    depth := map[start := 0];
    nodesVisited := 0;
    ghost var found := false;
    ghost var done: set<Node> := {};
    BfsStart(g, start, goal);
    while queue != []
      invariant !found && BfsInv(g, start, goal, visited, queue, path, parent, depth)
      invariant PathLayered(path, depth)
      invariant path + queue == Discovery(g, start, path) && FifoOrder(g, start, path)
      invariant Covers(g, path, parent) && FirstFinders(g, start, path, parent)
      invariant nodesVisited == |path|
      decreases g.Vertices() - visited, |queue|
    {
      ghost var waiting := queue;
      BfsHead(g, start, goal, visited, queue, path, parent, depth);
      var current := queue[0];
      queue := queue[1..];
      if current !in visited {
        ghost var expanded, before := visited, path;
        visited := visited + {current};
        path := path + [current];
        nodesVisited := nodesVisited + 1;
        LayeredVisit(g, start, goal, expanded, waiting, before, parent, depth);
        FifoVisit(g, start, before, waiting);
        if GoalActive(goal) && current == goal.value {
          BfsReachesGoal(g, start, goal, expanded, waiting, before, parent, depth);
          LayeredGoal(g, start, goal, expanded, waiting, before, parent, depth);
          BfsFindersGoal(g, start, goal, expanded, waiting, before, parent, depth);
          found, done := true, expanded;
          break;
        }
        ghost var parent0, depth0 := parent, depth;
        queue, parent, depth := EnqueueSuccessors(g, start, current, visited, queue, parent, depth);
        BfsExpand(g, start, goal, expanded, waiting, before, parent0, depth0, queue, parent, depth);
        LayeredKeep(path, depth0, depth);
        FifoExpand(g, start, expanded, before, waiting, queue);
        BfsFindersGrow(g, start, goal, expanded, waiting, before, parent0, depth0, queue, parent, depth);
      }
    }
    if !found {
      BfsExhausted(g, start, goal, visited, path, parent, depth);
      LayeredExhausted(g, start, goal, visited, path, parent, depth);
      done := visited;
    }
    LayeredOrder(g, start, parent, depth, done, path);
  }

  /** `breadth_first_search`: a FIFO queue, a visited set and a parent map.
      A node joins the queue only when it is neither visited nor already
      waiting, and the search stops as soon as it visits a goal that is in
      force. */
  method BreadthFirstSearch(g: Graph, start: Node, goal: Option<Node>, m: Measurement)
    returns (path: seq<Node>, rec: Record)
    ensures !g.HasNode(start) ==> path == [] && rec == Failed(StartMissing)
    ensures g.HasNode(start) ==>
              && rec.Ran? && rec.stats.algorithm == "BFS"
              && rec.stats.traversalPath == path && rec.stats.nodesVisited == |path|
              && rec.stats.executionTime == (m.endTime - m.startTime) * 1000.0
              && rec.stats.memoryUsed == m.peakBytes as real / 1024.0
              && rec.stats.pathLength == |rec.stats.goalPath|
    ensures g.HasNode(start) ==> |path| > 0 && path[0] == start
    ensures NoDups(path)
    ensures forall n :: n in path ==> g.Reachable(start, n)
    ensures Reached(goal, path) ==> path[|path| - 1] == goal.value
    ensures g.HasNode(start) && !Reached(goal, path) ==>
              && (forall n :: g.Reachable(start, n) ==> n in path)
              && rec.stats.goalPath == []
    ensures Reached(goal, path) ==>
              && g.IsWalkBetween(rec.stats.goalPath, start, goal.value)
              && NoDups(rec.stats.goalPath)
              && forall w :: g.IsWalkBetween(w, start, goal.value) ==> |rec.stats.goalPath| <= |w|
    ensures forall i, j, k: nat :: 0 <= i < j < |path| && g.WithinSteps(start, path[j], k) ==>
              g.WithinSteps(start, path[i], k)
    ensures |path| > 0 ==>
              forall n, k: nat :: g.WithinSteps(start, n, k) && !g.WithinSteps(start, path[|path| - 1], k) ==>
                n in path
    ensures FifoOrder(g, start, path)
    ensures Reached(goal, path) ==> FoundInTurn(g, path, rec.stats.goalPath)
  {
    if !g.HasNode(start) {
      return [], Failed(StartMissing);
    }
    var visited, parent, nodesVisited;
    ghost var depth;
    visited, path, parent, depth, nodesVisited := BreadthFirstLoop(g, start, goal);
    SearchDoneFacts(g, start, goal, visited, path, parent, depth, true);
    var goalPath: seq<Node> := [];
    if GoalActive(goal) && goal.value in visited {
      goalPath := RebuildGoalPath(g, start, goal.value, parent, depth);
      GoalPathFound(g, start, path, parent, goalPath);
    }
    rec := Ran(MakeStats("BFS", path, goalPath, nodesVisited, m));
  }

  /** What a finished search has shown: its traversal path lists the visited
      nodes once each, `start` first, all reachable; it ends with the goal
      when it reached one, and otherwise it holds every reachable node. With
      `shortest`, the goal is recorded at its distance from `start`. */
  ghost predicate SearchDone(g: Graph, start: Node, goal: Option<Node>, visited: set<Node>,
                             path: seq<Node>, parent: map<Node, Option<Node>>,
                             depth: map<Node, nat>, shortest: bool) {
    && ParentForest(g, start, parent, depth)
    && Visits(start, visited, path) && path != []
    && (forall n :: n in visited ==> n in parent)
    && AllReachable(g, start, parent)
    && (Reached(goal, path) ==> path[|path| - 1] == goal.value)
    && (Reached(goal, path) && shortest ==> Shallowest(g, start, goal.value, depth))
    && (!Reached(goal, path) ==> Complete(g, start, path))
  }

  /** What a finished search's record needs, spelled out. */
  lemma SearchDoneFacts(g: Graph, start: Node, goal: Option<Node>, visited: set<Node>,
                        path: seq<Node>, parent: map<Node, Option<Node>>,
                        depth: map<Node, nat>, shortest: bool)
    requires SearchDone(g, start, goal, visited, path, parent, depth, shortest)
    ensures |path| > 0 && path[0] == start && NoDups(path)
    ensures forall n :: n in path ==> g.Reachable(start, n)
    ensures Reached(goal, path) <==> GoalActive(goal) && goal.value in visited
    ensures Reached(goal, path) ==> path[|path| - 1] == goal.value && goal.value in parent
    ensures Reached(goal, path) && shortest ==>
              forall w :: g.IsWalkBetween(w, start, goal.value) ==> depth[goal.value] <= |w| - 1
    ensures !Reached(goal, path) ==> forall n :: g.Reachable(start, n) ==> n in path
  {
  }

  /** A BFS whose queue ran dry has visited everything reachable. */
  lemma BfsExhausted(g: Graph, start: Node, goal: Option<Node>, visited: set<Node>,
                     path: seq<Node>, parent: map<Node, Option<Node>>, depth: map<Node, nat>)
    requires BfsInv(g, start, goal, visited, [], path, parent, depth)
    ensures SearchDone(g, start, goal, visited, path, parent, depth, true)
  {
    ClosedSetHoldsReachable(g, start, visited);
  }

  /** When the head of the queue is the goal, every node recorded shallower
      than it has been expanded, so its depth is its distance from `start`. */
  lemma BfsReachesGoal(g: Graph, start: Node, goal: Option<Node>, expanded: set<Node>,
                       waiting: seq<Node>, path: seq<Node>,
                       parent: map<Node, Option<Node>>, depth: map<Node, nat>)
    requires BfsInv(g, start, goal, expanded, waiting, path, parent, depth) && waiting != []
    requires GoalActive(goal) && waiting[0] == goal.value
    ensures SearchDone(g, start, goal, expanded + {waiting[0]}, path + [waiting[0]], parent, depth, true)
  {
    var current := waiting[0];
    VisitNext(start, expanded, path, current);
    HeadIsShallowest(expanded, waiting, parent, depth);
    ShortestByLevels(g, start, parent, depth, expanded, current);
  }

  /** Every recorded node that is not yet expanded waits in the queue, so it
      is at least as deep as the queue's head. */
  lemma HeadIsShallowest(visited: set<Node>, queue: seq<Node>,
                         parent: map<Node, Option<Node>>, depth: map<Node, nat>)
    requires Frontier(parent, visited, queue) && Levels(visited, queue, depth) && queue != []
    ensures forall x :: x in parent && depth[queue[0]] > depth[x] ==> x in visited
  {
    forall x | x in parent && x !in visited ensures depth[queue[0]] <= depth[x] {
      var j :| 0 <= j < |queue| && queue[j] == x;
      if j > 0 {
        assert depth[queue[0]] <= depth[queue[j]];
      }
    }
  }


  // ---------------------------------------------------------------- DFS

  /** The first node of `s` that is not in `seen`, if any. */
  function FirstUnvisited(s: seq<Node>, seen: seq<Node>): (r: Option<Node>)
    ensures r.None? <==> forall x :: x in s ==> x in seen
    ensures r.Some? ==> r.value in s && r.value !in seen
  {
    if s == [] then None
    else if s[0] !in seen then Some(s[0])
    else FirstUnvisited(s[1..], seen)
  }

  /** `FirstUnvisited` is the earliest unseen node: everything before it in
      `s` has been seen. */
  lemma {:induction false} FirstUnvisitedIsEarliest(s: seq<Node>, seen: seq<Node>)
    requires FirstUnvisited(s, seen).Some?
    ensures exists k :: 0 <= k < |s| && s[k] == FirstUnvisited(s, seen).value
                        && forall j :: 0 <= j < k ==> s[j] in seen
  {
    if s[0] in seen {
      FirstUnvisitedIsEarliest(s[1..], seen);
      var k :| 0 <= k < |s[1..]| && s[1..][k] == FirstUnvisited(s, seen).value
               && forall j :: 0 <= j < k ==> s[1..][j] in seen;
      assert s[k + 1] == FirstUnvisited(s, seen).value;
      forall j | 0 <= j < k + 1 ensures s[j] in seen {
        if j > 0 { assert s[j] == s[1..][j - 1]; }
      }
    } else {
      assert s[0] == FirstUnvisited(s, seen).value;
    }
  }

  /** The nodes of `s[k..]` that are not visited, in order: what a DFS step
      pushes, read from the top of the stack down. */
  function Unvisited(s: seq<Node>, k: nat, visited: set<Node>): (u: seq<Node>)
    requires k <= |s|
    decreases |s| - k
  {
    if k == |s| then []
    else if s[k] in visited then Unvisited(s, k + 1, visited)
    else [s[k]] + Unvisited(s, k + 1, visited)
  }

  /** Read against a path holding the visited nodes, the first unvisited
      node is `FirstUnvisited`, and there is none exactly when
      `FirstUnvisited` finds none. */
  lemma {:induction false} UnvisitedIsFiltered(s: seq<Node>, k: nat, visited: set<Node>, seen: seq<Node>)
    requires k <= |s|
    requires forall n :: n in seen <==> n in visited
    ensures Unvisited(s, k, visited) == [] <==> FirstUnvisited(s[k..], seen).None?
    ensures Unvisited(s, k, visited) != [] ==>
              Unvisited(s, k, visited)[0] == FirstUnvisited(s[k..], seen).value
    decreases |s| - k
  {
    if k < |s| {
      UnvisitedIsFiltered(s, k + 1, visited, seen);
      assert s[k..] == [s[k]] + s[k + 1..];
      assert s[k..][1..] == s[k + 1..];
    }
  }

  /** The unvisited nodes are exactly the nodes of `s[k..]` outside
      `visited`. */
  lemma {:induction false} UnvisitedMembers(s: seq<Node>, k: nat, visited: set<Node>)
    requires k <= |s|
    ensures forall n :: n in Unvisited(s, k, visited) <==> n in s[k..] && n !in visited
    decreases |s| - k
  {
    if k < |s| {
      UnvisitedMembers(s, k + 1, visited);
      assert s[k..] == [s[k]] + s[k + 1..];
    }
  }

  lemma ReverseCons(x: Node, r: seq<Node>)
    ensures Reverse([x] + r) == Reverse(r) + [x]
  {
    assert ([x] + r)[1..] == r;
  }

  /** The inner loop of a DFS step: the successors of `current` are taken in
      reverse adjacency order, each unvisited one is pushed, and `current` is
      recorded as the parent of those that have none yet. So the first
      unvisited successor ends on top of the stack, and no parent is written
      twice. */
  method PushUnvisited(g: Graph, current: Node, visited: set<Node>, stack0: seq<Node>,
                       parent0: map<Node, Option<Node>>, ghost depth0: map<Node, nat>)
    returns (stack: seq<Node>, parent: map<Node, Option<Node>>, ghost depth: map<Node, nat>)
    requires depth0.Keys == parent0.Keys && current in parent0
    ensures stack == stack0 + Reverse(Unvisited(g.Succ(current), 0, visited))
    ensures depth.Keys == parent.Keys
    ensures forall n :: n in parent0 ==> n in parent && parent[n] == parent0[n] && depth[n] == depth0[n]
    ensures forall n :: n in parent && n !in parent0 ==>
              n in stack[|stack0|..] && parent[n] == Some(current) && depth[n] == depth0[current] + 1
    ensures forall n :: n in stack[|stack0|..] ==> n in parent
    ensures forall n :: n in stack[|stack0|..] <==> g.HasEdge(current, n) && n !in visited
  {
    var neighbors := g.Succ(current);
    ghost var pushed: seq<Node> := [];
    stack, parent, depth := stack0, parent0, depth0;
    for k := |neighbors| downto 0
      invariant pushed == Reverse(Unvisited(neighbors, k, visited)) && stack == stack0 + pushed
      invariant depth.Keys == parent.Keys
      invariant forall n :: n in parent0 ==> n in parent && parent[n] == parent0[n] && depth[n] == depth0[n]
      invariant forall n :: n in parent && n !in parent0 ==>
                  n in pushed && parent[n] == Some(current) && depth[n] == depth0[current] + 1
      invariant forall n :: n in pushed ==> n in parent
    {
      var neighbor := neighbors[k];
      if neighbor !in visited {
        assert Unvisited(neighbors, k, visited) == [neighbor] + Unvisited(neighbors, k + 1, visited);
        ReverseCons(neighbor, Unvisited(neighbors, k + 1, visited));
        stack := stack + [neighbor];
        pushed := pushed + [neighbor];
        if neighbor !in parent {
          parent := parent[neighbor := Some(current)];
          depth := depth[neighbor := depth0[current] + 1];
        }
      } else {
        assert Unvisited(neighbors, k, visited) == Unvisited(neighbors, k + 1, visited);
      }
    }
    assert stack[|stack0|..] == pushed;
    PushedMembers(neighbors, visited);
  }

  /** What a DFS step pushes is exactly the unvisited successors. */
  lemma PushedMembers(s: seq<Node>, visited: set<Node>)
    ensures forall n :: n in Reverse(Unvisited(s, 0, visited)) <==> n in s && n !in visited
  {
    UnvisitedMembers(s, 0, visited);
    assert s[0..] == s;
    ReverseSameMembers(Unvisited(s, 0, visited));
  }

  /** In a depth-first traversal, the node after `path[i]` is the first
      successor of `path[i]` not visited by then, whenever there is one. */
  ghost predicate TakesFirstUnvisited(g: Graph, path: seq<Node>, i: nat)
    requires i < |path| - 1
  {
    var next := FirstUnvisited(g.Succ(path[i]), path[..i + 1]);
    next.Some? ==> path[i + 1] == next.value
  }

  ghost predicate DepthFirstOrder(g: Graph, path: seq<Node>) {
    forall i :: 0 <= i < |path| - 1 ==> TakesFirstUnvisited(g, path, i)
  }

  /** Where a recursive depth-first search goes after visiting `seen`, looking
      only at the nodes `seen[..n]`: the first unvisited successor of the
      latest of them that still has one, or `None` when none has. */
  function NextFrom(g: Graph, seen: seq<Node>, n: nat): (r: Option<Node>)
    requires n <= |seen|
    ensures r.Some? ==> r.value !in seen
  {
    if n == 0 then None
    else
      match FirstUnvisited(g.Succ(seen[n - 1]), seen)
      case Some(x) => Some(x)
      case None => NextFrom(g, seen, n - 1)
  }

  /** `NextFrom` finds nothing exactly when none of `seen[..n]` has an
      unvisited successor. */
  lemma {:induction false} NextFromNone(g: Graph, seen: seq<Node>, n: nat)
    requires n <= |seen|
    ensures NextFrom(g, seen, n).None? <==>
              forall j :: 0 <= j < n ==> FirstUnvisited(g.Succ(seen[j]), seen).None?
  {
    if n > 0 {
      NextFromNone(g, seen, n - 1);
    }
  }

  /** The next node of a depth-first traversal that has visited `seen`. */
  function NextVisit(g: Graph, seen: seq<Node>): (r: Option<Node>)
    ensures r.Some? ==> r.value !in seen
  {
    NextFrom(g, seen, |seen|)
  }

  /** A depth-first traversal has nowhere left to go exactly when no edge
      leaves the nodes it has visited. */
  lemma NextVisitClosed(g: Graph, seen: seq<Node>)
    ensures NextVisit(g, seen).None? <==> forall x, y :: x in seen && g.HasEdge(x, y) ==> y in seen
  {
    var r := NextFrom(g, seen, |seen|);
    NextFromNone(g, seen, |seen|);
    if r.None? {
      forall x, y | x in seen && g.HasEdge(x, y) ensures y in seen {
        var j :| 0 <= j < |seen| && seen[j] == x;
        assert FirstUnvisited(g.Succ(seen[j]), seen).None?;
      }
    }
    if forall x, y :: x in seen && g.HasEdge(x, y) ==> y in seen {
      forall j | 0 <= j < |seen| ensures FirstUnvisited(g.Succ(seen[j]), seen).None? {
        assert forall y :: y in g.Succ(seen[j]) ==> g.HasEdge(seen[j], y);
      }
    }
  }

  /** A traversal holding exactly the nodes reachable from `start` leaves a
      recursive depth-first search nowhere to go. */
  lemma CompleteTraversalEnds(g: Graph, start: Node, path: seq<Node>)
    requires forall n :: n in path ==> g.Reachable(start, n)
    requires forall n :: g.Reachable(start, n) ==> n in path
    ensures NextVisit(g, path).None?
  {
    forall x, y | x in path && g.HasEdge(x, y) ensures y in path {
      ReachableStep(g, start, x, y);
    }
    NextVisitClosed(g, path);
  }

  /** `NextFrom` backtracks to the deepest node with an unvisited successor:
      the node it returns is the first unvisited successor of some `seen[j]`,
      and no later node of `seen[..n]` has an unvisited successor. */
  lemma {:induction false} NextFromIsDeepest(g: Graph, seen: seq<Node>, n: nat) returns (j: nat)
    requires n <= |seen| && NextFrom(g, seen, n).Some?
    ensures j < n && FirstUnvisited(g.Succ(seen[j]), seen) == NextFrom(g, seen, n)
    ensures forall k :: j < k < n ==> FirstUnvisited(g.Succ(seen[k]), seen).None?
  {
    if FirstUnvisited(g.Succ(seen[n - 1]), seen).None? {
      j := NextFromIsDeepest(g, seen, n - 1);
    } else {
      j := n - 1;
    }
  }

  /** The traversal path is the one a recursive depth-first search takes: each
      node after the first is where that search goes next. */
  ghost predicate DfsPreorder(g: Graph, path: seq<Node>) {
    forall i :: 0 < i < |path| ==> NextVisit(g, path[..i]) == Some(path[i])
  }

  /** A path in depth-first preorder takes, after each node, that node's first
      unvisited successor whenever it has one. */
  lemma PreorderTakesFirst(g: Graph, path: seq<Node>)
    requires DfsPreorder(g, path)
    ensures DepthFirstOrder(g, path)
  {
    forall i | 0 <= i < |path| - 1 ensures TakesFirstUnvisited(g, path, i) {
      var seen := path[..i + 1];
      assert seen[i] == path[i] && |seen| == i + 1;
      assert NextFrom(g, seen, i + 1) == Some(path[i + 1]);
      var next := FirstUnvisited(g.Succ(path[i]), seen);
      if next.Some? {
        assert NextFrom(g, seen, i + 1) == next;
      }
    }
  }

  /** What a recursive depth-first search still has to explore after
      visiting `path[..n]`: for each of those nodes in turn, its successors
      outside `visited`, in the order a stack hands them out from the end. */
  ghost function Pending(g: Graph, path: seq<Node>, n: nat, visited: set<Node>): seq<Node>
    requires n <= |path|
  {
    if n == 0 then []
    else Pending(g, path, n - 1, visited) + Reverse(Unvisited(g.Succ(path[n - 1]), 0, visited))
  }

  /** The last pending node is where the recursive search goes next, and
      nothing is pending exactly when it has nowhere to go. */
  lemma {:induction false} PendingNext(g: Graph, path: seq<Node>, n: nat, visited: set<Node>)
    requires n <= |path|
    requires forall x :: x in visited <==> x in path
    ensures var p := Pending(g, path, n, visited);
            && (p == [] <==> NextFrom(g, path, n).None?)
            && (p != [] ==> p[|p| - 1] == NextFrom(g, path, n).value)
  {
    if n > 0 {
      PendingNext(g, path, n - 1, visited);
      var s := g.Succ(path[n - 1]);
      UnvisitedIsFiltered(s, 0, visited, path);
      assert s[0..] == s;
    }
  }

  lemma {:induction false} PendingPrefix(g: Graph, p: seq<Node>, q: seq<Node>, n: nat, visited: set<Node>)
    requires n <= |p| && n <= |q| && p[..n] == q[..n]
    ensures Pending(g, p, n, visited) == Pending(g, q, n, visited)
  {
    if n > 0 {
      assert p[..n - 1] == q[..n - 1] && p[n - 1] == q[n - 1] by {
        assert p[..n][n - 1] == q[..n][n - 1];
        assert p[..n - 1] == p[..n][..n - 1];
        assert q[..n - 1] == q[..n][..n - 1];
      }
      PendingPrefix(g, p, q, n - 1, visited);
    }
  }

  lemma {:induction false} WithoutConcat(a: seq<Node>, b: seq<Node>, c: Node)
    ensures Without(a + b, c) == Without(a, c) + Without(b, c)
  {
    if a != [] {
      assert (a + b)[0] == a[0] && (a + b)[1..] == a[1..] + b;
      WithoutConcat(a[1..], b, c);
      if a[0] != c {
        assert [a[0]] + Without(a[1..], c) + Without(b, c) == [a[0]] + (Without(a[1..], c) + Without(b, c));
      }
    } else {
      assert a + b == b;
    }
  }

  lemma {:induction false} WithoutReverse(a: seq<Node>, c: Node)
    ensures Without(Reverse(a), c) == Reverse(Without(a, c))
  {
    if a != [] {
      WithoutReverse(a[1..], c);
      WithoutConcat(Reverse(a[1..]), [a[0]], c);
      if a[0] != c {
        ReverseCons(a[0], Without(a[1..], c));
      }
    }
  }

  /** Marking one more node visited drops it from an unvisited list. */
  lemma {:induction false} UnvisitedAdd(s: seq<Node>, k: nat, visited: set<Node>, c: Node)
    requires k <= |s|
    ensures Unvisited(s, k, visited + {c}) == Without(Unvisited(s, k, visited), c)
    decreases |s| - k
  {
    if k < |s| {
      UnvisitedAdd(s, k + 1, visited, c);
      var u := Unvisited(s, k + 1, visited);
      if s[k] in visited {
        assert Unvisited(s, k, visited + {c}) == Unvisited(s, k + 1, visited + {c});
        assert Unvisited(s, k, visited) == u;
      } else {
        var x := [s[k]] + u;
        assert Unvisited(s, k, visited) == x;
        assert x[0] == s[k] && x[1..] == u;
        if s[k] == c {
          assert Unvisited(s, k, visited + {c}) == Unvisited(s, k + 1, visited + {c});
          assert Without(x, c) == Without(u, c);
        } else {
          assert Unvisited(s, k, visited + {c}) == [s[k]] + Unvisited(s, k + 1, visited + {c});
          assert Without(x, c) == [s[k]] + Without(u, c);
        }
      }
    }
  }

  lemma {:induction false} UnvisitedShift(a: seq<Node>, b: seq<Node>, m: nat, visited: set<Node>)
    requires m <= |b|
    ensures Unvisited(a + b, |a| + m, visited) == Unvisited(b, m, visited)
    decreases |b| - m
  {
    if m < |b| {
      UnvisitedShift(a, b, m + 1, visited);
      assert (a + b)[|a| + m] == b[m];
    }
  }

  /** The unvisited nodes of a concatenation are those of each part. */
  lemma {:induction false} UnvisitedConcat(a: seq<Node>, b: seq<Node>, k: nat, visited: set<Node>)
    requires k <= |a|
    ensures Unvisited(a + b, k, visited) == Unvisited(a, k, visited) + Unvisited(b, 0, visited)
    decreases |a| - k
  {
    if k < |a| {
      UnvisitedConcat(a, b, k + 1, visited);
      assert (a + b)[k] == a[k];
    } else {
      UnvisitedShift(a, b, 0, visited);
    }
  }

  /** A list with no visited node is its own unvisited part. */
  lemma {:induction false} UnvisitedOfFresh(s: seq<Node>, k: nat, visited: set<Node>)
    requires k <= |s| && forall n :: n in s ==> n !in visited
    ensures Unvisited(s, k, visited) == s[k..]
    decreases |s| - k
  {
    if k < |s| {
      UnvisitedOfFresh(s, k + 1, visited);
      assert s[k..] == [s[k]] + s[k + 1..];
    }
  }

  lemma UnvisitedOfOne(x: Node, visited: set<Node>)
    ensures Unvisited([x], 0, visited) == if x in visited then [] else [x]
  {
    assert Unvisited([x], 1, visited) == [];
  }

  /** Marking one more node visited drops it from what is pending. */
  lemma {:induction false} PendingAdd(g: Graph, path: seq<Node>, n: nat, visited: set<Node>, c: Node)
    requires n <= |path|
    ensures Pending(g, path, n, visited + {c}) == Without(Pending(g, path, n, visited), c)
  {
    if n > 0 {
      PendingAdd(g, path, n - 1, visited, c);
      var u := Unvisited(g.Succ(path[n - 1]), 0, visited);
      UnvisitedAdd(g.Succ(path[n - 1]), 0, visited, c);
      WithoutReverse(u, c);
      WithoutConcat(Pending(g, path, n - 1, visited), Reverse(u), c);
    }
  }

  /** The unvisited entries of the stack, read from the bottom, are exactly
      what a recursive search has pending: so the top unvisited entry is
      where that search goes next. */
  ghost predicate StackPending(g: Graph, visited: set<Node>, stack: seq<Node>, path: seq<Node>) {
    path != [] ==> Unvisited(stack, 0, visited) == Pending(g, path, |path|, visited)
  }

  /** The parent map of a DFS: a tree of reachable nodes that covers the
      visited and the stacked ones. */
  ghost predicate DfsTree(g: Graph, start: Node, visited: set<Node>, stack: seq<Node>,
                          parent: map<Node, Option<Node>>, depth: map<Node, nat>) {
    && ParentForest(g, start, parent, depth)
    && (forall n :: n in visited ==> n in parent)
    && (forall n :: n in stack ==> n in parent)
    && AllReachable(g, start, parent)
  }

  /** The order of a DFS: the traversal path lists the visited nodes once
      each, `start` first, in depth-first preorder; the unvisited stack
      entries are what is pending; and no goal in force has been visited
      yet. */
  ghost predicate DfsOrder(g: Graph, start: Node, goal: Option<Node>, visited: set<Node>,
                           stack: seq<Node>, path: seq<Node>) {
    && TraversalOf(start, visited, stack, path)
    && StackPending(g, visited, stack, path)
    && DfsPreorder(g, path)
    && !Reached(goal, path)
    && WithinVertices(g, visited, stack)
  }

  /** What holds of an iterative DFS each time it is about to pop. */
  ghost predicate DfsInv(g: Graph, start: Node, goal: Option<Node>, visited: set<Node>,
                         stack: seq<Node>, path: seq<Node>,
                         parent: map<Node, Option<Node>>, depth: map<Node, nat>) {
    DfsTree(g, start, visited, stack, parent, depth) && DfsOrder(g, start, goal, visited, stack, path)
  }

  lemma DfsStart(g: Graph, start: Node, goal: Option<Node>)
    requires g.HasNode(start)
    ensures DfsInv(g, start, goal, {}, [start], [], map[start := None], map[start := 0])
  {
    ReachableFromItself(g, start);
  }

  /** The top of the stack is a recorded node; popping it leaves the rest
      recorded, and visiting it, when it is new, shrinks what is left to
      visit. */
  lemma DfsTop(g: Graph, start: Node, goal: Option<Node>, visited: set<Node>,
               stack: seq<Node>, path: seq<Node>,
               parent: map<Node, Option<Node>>, depth: map<Node, nat>)
    requires DfsInv(g, start, goal, visited, stack, path, parent, depth) && stack != []
    ensures stack[|stack| - 1] in parent && depth.Keys == parent.Keys
    ensures stack[|stack| - 1] !in visited ==>
              g.Vertices() - (visited + {stack[|stack| - 1]}) < g.Vertices() - visited
    ensures forall n :: n in stack <==> n in stack[..|stack| - 1] || n == stack[|stack| - 1]
  {
    var top := stack[|stack| - 1];
    SplitLast(stack);
    assert top in stack;
    if top !in visited {
      assert top in g.Vertices() - visited;
      assert top !in g.Vertices() - (visited + {top});
    }
  }

  /** Popping a node that was visited already changes nothing else. */
  lemma DfsSkip(g: Graph, start: Node, goal: Option<Node>, visited: set<Node>,
                waiting: seq<Node>, path: seq<Node>,
                parent: map<Node, Option<Node>>, depth: map<Node, nat>)
    requires DfsInv(g, start, goal, visited, waiting, path, parent, depth) && waiting != []
    requires waiting[|waiting| - 1] in visited
    ensures DfsInv(g, start, goal, visited, waiting[..|waiting| - 1], path, parent, depth)
  {
    var top, rest := waiting[|waiting| - 1], waiting[..|waiting| - 1];
    assert waiting == rest + [top];
    assert forall n :: n in rest ==> n in waiting;
    SkipVisited(visited, rest, top);
  }

  /** A visited entry on top of the stack is not one of its unvisited ones. */
  lemma SkipVisited(visited: set<Node>, rest: seq<Node>, top: Node)
    requires top in visited
    ensures Unvisited(rest + [top], 0, visited) == Unvisited(rest, 0, visited)
  {
    UnvisitedConcat(rest, [top], 0, visited);
    UnvisitedOfOne(top, visited);
  }

  /** Visiting the popped node `current`, when it is new and not the goal,
      and pushing its unvisited successors keeps the DFS invariant. */
  lemma DfsExpand(g: Graph, start: Node, goal: Option<Node>, visited: set<Node>,
                  rest: seq<Node>, current: Node, path: seq<Node>,
                  parent0: map<Node, Option<Node>>, depth0: map<Node, nat>,
                  stack: seq<Node>, parent: map<Node, Option<Node>>, depth: map<Node, nat>)
    requires DfsInv(g, start, goal, visited, rest + [current], path, parent0, depth0)
    requires current !in visited && !(GoalActive(goal) && current == goal.value)
    requires stack == rest + Reverse(Unvisited(g.Succ(current), 0, visited + {current}))
    requires depth.Keys == parent.Keys
    requires forall n :: n in parent0 ==> n in parent && parent[n] == parent0[n] && depth[n] == depth0[n]
    requires forall n :: n in parent && n !in parent0 ==>
               n in stack[|rest|..] && parent[n] == Some(current) && depth[n] == depth0[current] + 1
    requires forall n :: n in stack[|rest|..] ==> n in parent
    requires forall n :: n in stack[|rest|..] <==> g.HasEdge(current, n) && n !in visited + {current}
    requires Covers(g, path, parent0) && FirstFinders(g, start, path, parent0)
    ensures DfsInv(g, start, goal, visited + {current}, stack, path + [current], parent, depth)
    ensures Covers(g, path + [current], parent) && FirstFinders(g, start, path + [current], parent)
  {
    ExpandTree(g, start, visited, rest, current, parent0, depth0, stack, parent, depth);
    ExpandOrder(g, start, goal, visited, rest, current, path, stack);
    DfsFindersGrow(g, start, visited, path, rest, current, parent0, depth0, stack, parent);
  }

  lemma ExpandTree(g: Graph, start: Node, visited: set<Node>, rest: seq<Node>, current: Node,
                   parent0: map<Node, Option<Node>>, depth0: map<Node, nat>,
                   stack: seq<Node>, parent: map<Node, Option<Node>>, depth: map<Node, nat>)
    requires DfsTree(g, start, visited, rest + [current], parent0, depth0)
    requires stack == rest + Reverse(Unvisited(g.Succ(current), 0, visited + {current}))
    requires depth.Keys == parent.Keys
    requires forall n :: n in parent0 ==> n in parent && parent[n] == parent0[n] && depth[n] == depth0[n]
    requires forall n :: n in parent && n !in parent0 ==>
               n in stack[|rest|..] && parent[n] == Some(current) && depth[n] == depth0[current] + 1
    requires forall n :: n in stack[|rest|..] ==> n in parent
    ensures DfsTree(g, start, visited + {current}, stack, parent, depth)
  {
    var unvisited := Unvisited(g.Succ(current), 0, visited + {current});
    var pushed := Reverse(unvisited);
    SuffixOfConcat(rest, pushed);
    UnvisitedMembers(g.Succ(current), 0, visited + {current});
    assert g.Succ(current)[0..] == g.Succ(current);
    ReverseSameMembers(unvisited);
    assert forall n :: n in stack[|rest|..] ==> g.HasEdge(current, n);
    assert current in rest + [current];
    ForestGrows(g, start, current, parent0, depth0, parent, depth);
    ExpandRecorded(visited, rest, current, parent0, parent, pushed);
  }

  lemma ExpandOrder(g: Graph, start: Node, goal: Option<Node>, visited: set<Node>,
                    rest: seq<Node>, current: Node, path: seq<Node>, stack: seq<Node>)
    requires DfsOrder(g, start, goal, visited, rest + [current], path)
    requires current !in visited && !(GoalActive(goal) && current == goal.value)
    requires stack == rest + Reverse(Unvisited(g.Succ(current), 0, visited + {current}))
    ensures DfsOrder(g, start, goal, visited + {current}, stack, path + [current])
  {
    var visited' := visited + {current};
    var unvisited := Unvisited(g.Succ(current), 0, visited');
    var pushed := Reverse(unvisited);
    assert (rest + [current])[|rest|] == current;
    VisitNext(start, visited, path, current);
    UnvisitedMembers(g.Succ(current), 0, visited');
    assert g.Succ(current)[0..] == g.Succ(current);
    ReverseSameMembers(unvisited);
    ExpandWithinDfs(g, visited, rest, current, pushed);
    assert path == [] ==> rest == [];
    if path != [] {
      TopIsNext(g, visited, rest, current, path);
    }
    PreorderGrows(g, current, path);
    PendingGrows(g, visited, rest, current, path, pushed);
    NotReachedYet(goal, path, current);
  }

  /** Visiting a node that is not the goal in force does not reach it. */
  lemma NotReachedYet(goal: Option<Node>, path: seq<Node>, current: Node)
    requires !Reached(goal, path) && !(GoalActive(goal) && current == goal.value)
    ensures !Reached(goal, path + [current])
  {
    assert forall n :: n in path + [current] ==> n in path || n == current;
  }

  lemma ReverseSameMembers(s: seq<Node>)
    ensures forall n :: n in Reverse(s) <==> n in s
  {
    var r := Reverse(s);
    forall n | n in s ensures n in r {
      var k :| 0 <= k < |s| && s[k] == n;
      assert r[|s| - 1 - k] == n;
    }
    forall n | n in r ensures n in s {
      var k :| 0 <= k < |r| && r[k] == n;
      assert s[|s| - 1 - k] == n;
    }
  }

  lemma SplitLast(s: seq<Node>)
    requires s != []
    ensures s == s[..|s| - 1] + [s[|s| - 1]]
  {
  }

  lemma SuffixOfConcat(a: seq<Node>, b: seq<Node>)
    ensures (a + b)[|a|..] == b
  {
  }

  lemma ExpandWithinDfs(g: Graph, visited: set<Node>, rest: seq<Node>, current: Node, pushed: seq<Node>)
    requires WithinVertices(g, visited, rest + [current])
    requires forall n :: n in pushed ==> g.HasEdge(current, n)
    ensures WithinVertices(g, visited + {current}, rest + pushed)
  {
    assert current in rest + [current];
    assert forall n :: n in rest ==> n in rest + [current];
    assert forall n :: n in rest + pushed ==> n in rest || n in pushed;
  }

  lemma ExpandRecorded(visited: set<Node>, rest: seq<Node>, current: Node,
                       parent0: map<Node, Option<Node>>, parent: map<Node, Option<Node>>, pushed: seq<Node>)
    requires forall n :: n in rest + [current] ==> n in parent0
    requires forall n :: n in visited ==> n in parent0
    requires forall n :: n in parent0 ==> n in parent
    requires forall n :: n in pushed ==> n in parent
    ensures forall n :: n in visited + {current} ==> n in parent
    ensures forall n :: n in rest + pushed ==> n in parent
  {
    assert forall n :: n in rest ==> n in rest + [current];
    assert current in rest + [current];
  }

  /** The unvisited node on top of the stack is the last pending one, so it is
      where the recursive search goes next. */
  lemma TopIsNext(g: Graph, visited: set<Node>, rest: seq<Node>, current: Node, path: seq<Node>)
    requires path != [] && forall n :: n in visited <==> n in path
    requires current !in visited && StackPending(g, visited, rest + [current], path)
    ensures var p := Pending(g, path, |path|, visited);
            && p == Unvisited(rest, 0, visited) + [current]
            && NextVisit(g, path) == Some(current)
  {
    UnvisitedConcat(rest, [current], 0, visited);
    UnvisitedOfOne(current, visited);
    PendingNext(g, path, |path|, visited);
  }

  /** Visiting the unvisited node on top of the stack keeps the path in
      depth-first preorder. */
  lemma PreorderGrows(g: Graph, current: Node, path: seq<Node>)
    requires DfsPreorder(g, path)
    requires path != [] ==> NextVisit(g, path) == Some(current)
    ensures DfsPreorder(g, path + [current])
  {
    var path' := path + [current];
    forall i | 0 < i < |path'| ensures NextVisit(g, path'[..i]) == Some(path'[i]) {
      if i < |path| {
        assert path'[..i] == path[..i] && path'[i] == path[i];
      } else {
        assert path'[..i] == path && path'[i] == current;
      }
    }
  }

  /** After visiting the top of the stack and pushing its unvisited
      successors, the unvisited entries are again what is pending. */
  lemma PendingGrows(g: Graph, visited: set<Node>, rest: seq<Node>, current: Node, path: seq<Node>,
                     pushed: seq<Node>)
    requires forall n :: n in visited <==> n in path
    requires current !in visited && StackPending(g, visited, rest + [current], path)
    requires path == [] ==> rest == []
    requires pushed == Reverse(Unvisited(g.Succ(current), 0, visited + {current}))
    requires forall n :: n in pushed ==> n !in visited + {current}
    ensures StackPending(g, visited + {current}, rest + pushed, path + [current])
  {
    var visited', path' := visited + {current}, path + [current];
    UnvisitedConcat(rest, pushed, 0, visited');
    UnvisitedOfFresh(pushed, 0, visited');
    assert path'[|path|] == current;
    assert Pending(g, path', |path'|, visited') == Pending(g, path', |path|, visited') + pushed;
    assert path'[..|path|] == path[..|path|];
    PendingPrefix(g, path, path', |path|, visited');
    if path != [] {
      TopIsNext(g, visited, rest, current, path);
      var p := Pending(g, path, |path|, visited);
      PendingAdd(g, path, |path|, visited, current);
      UnvisitedAdd(rest, 0, visited, current);
      WithoutConcat(Unvisited(rest, 0, visited), [current], current);
    } else {
      assert Unvisited(rest, 0, visited') == [];
    }
  }

  /** A DFS that pops the goal stops with the goal last. */
  lemma DfsReachesGoal(g: Graph, start: Node, goal: Option<Node>, visited: set<Node>,
                       waiting: seq<Node>, path: seq<Node>,
                       parent: map<Node, Option<Node>>, depth: map<Node, nat>)
    requires DfsInv(g, start, goal, visited, waiting, path, parent, depth) && waiting != []
    requires waiting[|waiting| - 1] !in visited
    requires GoalActive(goal) && waiting[|waiting| - 1] == goal.value
    ensures SearchDone(g, start, goal, visited + {waiting[|waiting| - 1]},
                       path + [waiting[|waiting| - 1]], parent, depth, false)
    ensures DfsPreorder(g, path + [waiting[|waiting| - 1]])
  {
    var current := waiting[|waiting| - 1];
    assert path == [] ==> waiting == [start];
    VisitNext(start, visited, path, current);
    SplitLast(waiting);
    if path != [] {
      TopIsNext(g, visited, waiting[..|waiting| - 1], current, path);
    }
    PreorderGrows(g, current, path);
  }

  /** A DFS whose stack ran dry has visited everything reachable, and the
      recursive search would have nowhere left to go. */
  lemma DfsExhausted(g: Graph, start: Node, goal: Option<Node>, visited: set<Node>,
                     path: seq<Node>, parent: map<Node, Option<Node>>, depth: map<Node, nat>)
    requires DfsInv(g, start, goal, visited, [], path, parent, depth)
    ensures SearchDone(g, start, goal, visited, path, parent, depth, false)
    ensures DfsPreorder(g, path) && NextVisit(g, path).None?
  {
    PendingNext(g, path, |path|, visited);
    NextVisitClosed(g, path);
    assert forall x, y :: x in visited && g.HasEdge(x, y) ==> y in visited;
    ClosedSetHoldsReachable(g, start, visited);
  }

  /** Expanding `current` in a DFS keeps every parent the first node to find
      its child, and every successor of an expanded node recorded. */
  lemma DfsFindersGrow(g: Graph, start: Node, visited: set<Node>, path: seq<Node>, rest: seq<Node>,
                       current: Node, parent0: map<Node, Option<Node>>, depth0: map<Node, nat>,
                       stack: seq<Node>, parent: map<Node, Option<Node>>)
    requires DfsTree(g, start, visited, rest + [current], parent0, depth0)
    requires Covers(g, path, parent0) && FirstFinders(g, start, path, parent0)
    requires forall n :: n in parent0 ==> n in parent && parent[n] == parent0[n]
    requires |rest| <= |stack|
    requires forall n :: n in parent && n !in parent0 ==> n in stack[|rest|..] && parent[n] == Some(current)
    requires forall n :: n in stack[|rest|..] ==> n in parent
    requires forall n :: n in stack[|rest|..] <==> g.HasEdge(current, n) && n !in visited + {current}
    ensures Covers(g, path + [current], parent) && FirstFinders(g, start, path + [current], parent)
  {
    assert current in rest + [current];
    FindersGrow(g, start, path, current, parent0, parent);
  }

  /** Visiting the goal, which expands nothing, keeps every parent the first
      node to find its child. */
  lemma DfsFindersGoal(g: Graph, start: Node, visited: set<Node>, stack: seq<Node>, path: seq<Node>,
                       parent: map<Node, Option<Node>>, depth: map<Node, nat>, current: Node)
    requires DfsTree(g, start, visited, stack, parent, depth)
    requires Covers(g, path, parent) && FirstFinders(g, start, path, parent)
    ensures FirstFinders(g, start, path + [current], parent)
  {
    FindersGrow(g, start, path, current, parent, parent);
  }

  /** The loop of `iterative_depth_first_search`, from pushing `start` until
      the goal is visited or the stack runs dry: it ends having visited the
      nodes in the order a recursive depth-first search visits them. */
  method DepthFirstLoop(g: Graph, start: Node, goal: Option<Node>)
    returns (visited: set<Node>, path: seq<Node>, parent: map<Node, Option<Node>>,
             ghost depth: map<Node, nat>, nodesVisited: nat)
    requires g.HasNode(start)
    ensures SearchDone(g, start, goal, visited, path, parent, depth, false)
    ensures DfsPreorder(g, path)
    ensures !Reached(goal, path) ==> NextVisit(g, path).None?
    ensures FirstFinders(g, start, path, parent)
    ensures nodesVisited == |path|
  {
    visited := {};
    var stack: seq<Node> := [start];
    path := [];
    parent := map[start := None];
    depth := map[start := 0];
    nodesVisited := 0;
    ghost var found := false;
    DfsStart(g, start, goal);
    while stack != []
      invariant !found && DfsInv(g, start, goal, visited, stack, path, parent, depth)
      invariant Covers(g, path, parent) && FirstFinders(g, start, path, parent)
      invariant nodesVisited == |path|
      decreases g.Vertices() - visited, |stack|
    {
      ghost var waiting := stack;
      DfsTop(g, start, goal, visited, stack, path, parent, depth);
      var current := stack[|stack| - 1];
      stack := stack[..|stack| - 1];
      if current !in visited {
        ghost var expanded, before := visited, path;
        visited := visited + {current};
        path := path + [current];
        nodesVisited := nodesVisited + 1;
        if GoalActive(goal) && current == goal.value {
          DfsReachesGoal(g, start, goal, expanded, waiting, before, parent, depth);
          DfsFindersGoal(g, start, expanded, waiting, before, parent, depth, current);
          found := true;
          break;
        }
        ghost var parent0, depth0, rest := parent, depth, stack;
        SplitLast(waiting);
        stack, parent, depth := PushUnvisited(g, current, visited, stack, parent, depth);
        DfsExpand(g, start, goal, expanded, rest, current, before, parent0, depth0, stack, parent, depth);
      } else {
        DfsSkip(g, start, goal, visited, waiting, path, parent, depth);
      }
    }
    if !found {
      DfsExhausted(g, start, goal, visited, path, parent, depth);
    }
  }

  /** `iterative_depth_first_search`: a LIFO stack, a visited set and a parent
      map. Successors are pushed in reverse adjacency order, the same node may
      be stacked more than once and is skipped when popped again, a node's
      parent is the first node that pushed it, and the search stops as soon
      as it visits a goal that is in force. */
  method IterativeDepthFirstSearch(g: Graph, start: Node, goal: Option<Node>, m: Measurement)
    returns (path: seq<Node>, rec: Record)
    ensures !g.HasNode(start) ==> path == [] && rec == Failed(StartMissing)
    ensures g.HasNode(start) ==>
              && rec.Ran? && rec.stats.algorithm == "Iterative DFS"
              && rec.stats.traversalPath == path && rec.stats.nodesVisited == |path|
              && rec.stats.executionTime == (m.endTime - m.startTime) * 1000.0
              && rec.stats.memoryUsed == m.peakBytes as real / 1024.0
              && rec.stats.pathLength == |rec.stats.goalPath|
    ensures g.HasNode(start) ==> |path| > 0 && path[0] == start
    ensures NoDups(path)
    ensures forall n :: n in path ==> g.Reachable(start, n)
    ensures DfsPreorder(g, path)
    ensures Reached(goal, path) ==> path[|path| - 1] == goal.value
    ensures g.HasNode(start) && !Reached(goal, path) ==>
              && (forall n :: g.Reachable(start, n) ==> n in path)
              && rec.stats.goalPath == []
    ensures Reached(goal, path) ==>
              && g.IsWalkBetween(rec.stats.goalPath, start, goal.value)
              && NoDups(rec.stats.goalPath)
              && FoundInTurn(g, path, rec.stats.goalPath)
  {
    if !g.HasNode(start) {
      return [], Failed(StartMissing);
    }
    var visited, parent, nodesVisited;
    ghost var depth;
    visited, path, parent, depth, nodesVisited := DepthFirstLoop(g, start, goal);
    SearchDoneFacts(g, start, goal, visited, path, parent, depth, false);
    var goalPath: seq<Node> := [];
    if GoalActive(goal) && goal.value in visited {
      goalPath := RebuildGoalPath(g, start, goal.value, parent, depth);
      GoalPathFound(g, start, path, parent, goalPath);
    }
    rec := Ran(MakeStats("Iterative DFS", path, goalPath, nodesVisited, m));
  }
}
