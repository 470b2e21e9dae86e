/** The comparison tab: the two stored search records side by side, one row
    per metric, each row naming the algorithm with the smaller value, ties
    going to BFS. */
module Comparison {
  import opened Wrappers
  import opened Graphs
  import opened Traversal

  datatype Algorithm = BFS | DFS

  datatype Metric = NodesVisited | ExecutionTime | MemoryUsed | PathLength

  /** One line of the performance table. Counts are shown as reals so that
      every metric is compared the same way. */
  datatype Row = Row(metric: Metric, bfs: real, dfs: real, winner: Algorithm)

  /** What the comparison tab shows: the request to run both searches first;
      nothing, because a record that holds only an error has no traversal to
      show (the tab stops on a missing key); or the report. */
  datatype Outcome =
    | RunBothFirst
    | StatsIncomplete
    | Report(bfsTraversal: seq<Node>, dfsTraversal: seq<Node>,
             goalPaths: Option<(seq<Node>, seq<Node>)>, rows: seq<Row>)

  /** The winner of one metric: smaller is better, and BFS takes ties. */
  function Winner(bfs: real, dfs: real): (w: Algorithm)
    ensures w == BFS ==> bfs <= dfs
    ensures w == DFS ==> dfs < bfs
  {
    if bfs <= dfs then BFS else DFS
  }

  function MakeRow(metric: Metric, bfs: real, dfs: real): (r: Row)
    ensures r.metric == metric && r.bfs == bfs && r.dfs == dfs
    ensures r.winner == BFS <==> bfs <= dfs
  {
    Row(metric, bfs, dfs, Winner(bfs, dfs))
  }

  /** `display_comparison` on the two stored records. */
  function Compare(bfs: Record, dfs: Record): (c: Outcome)
    ensures c.RunBothFirst? <==> bfs.NotRun? || dfs.NotRun?
    ensures c.StatsIncomplete? <==> !bfs.NotRun? && !dfs.NotRun? && (bfs.Failed? || dfs.Failed?)
    ensures c.Report? <==> bfs.Ran? && dfs.Ran?
    ensures c.Report? ==>
              && c.bfsTraversal == bfs.stats.traversalPath
              && c.dfsTraversal == dfs.stats.traversalPath
              && (c.goalPaths.Some? <==> bfs.stats.goalPath != [] && dfs.stats.goalPath != [])
              && (c.goalPaths.Some? ==> c.goalPaths.value == (bfs.stats.goalPath, dfs.stats.goalPath))
    ensures c.Report? ==>
              && |c.rows| == (if bfs.stats.pathLength > 0 && dfs.stats.pathLength > 0 then 4 else 3)
              && c.rows[0].metric == NodesVisited
              && c.rows[0].bfs == bfs.stats.nodesVisited as real
              && c.rows[0].dfs == dfs.stats.nodesVisited as real
              && c.rows[1].metric == ExecutionTime
              && c.rows[1].bfs == bfs.stats.executionTime && c.rows[1].dfs == dfs.stats.executionTime
              && c.rows[2].metric == MemoryUsed
              && c.rows[2].bfs == bfs.stats.memoryUsed && c.rows[2].dfs == dfs.stats.memoryUsed
              && (|c.rows| == 4 ==>
                    && c.rows[3].metric == PathLength
                    && c.rows[3].bfs == bfs.stats.pathLength as real
                    && c.rows[3].dfs == dfs.stats.pathLength as real)
              && (forall r :: r in c.rows ==> (r.winner == BFS <==> r.bfs <= r.dfs))
  {
    if bfs.NotRun? || dfs.NotRun? then RunBothFirst
    else if bfs.Failed? || dfs.Failed? then StatsIncomplete
    else
      var b, d := bfs.stats, dfs.stats;
      var goalPaths := if b.goalPath != [] && d.goalPath != [] then Some((b.goalPath, d.goalPath)) else None;
      var rows := [ MakeRow(NodesVisited, b.nodesVisited as real, d.nodesVisited as real),
                    MakeRow(ExecutionTime, b.executionTime, d.executionTime),
                    MakeRow(MemoryUsed, b.memoryUsed, d.memoryUsed) ];
      var rows' := if b.pathLength > 0 && d.pathLength > 0
                   then rows + [MakeRow(PathLength, b.pathLength as real, d.pathLength as real)]
                   else rows;
      Report(b.traversalPath, d.traversalPath, goalPaths, rows')
  }

  /** What the window keeps of the last runs: each search's traversal and
      its record. */
  datatype Results = Results(bfsPath: seq<Node>, dfsPath: seq<Node>, bfsStats: Record, dfsStats: Record)

  /** `clear_results`: both traversals emptied and both records reset to the
      empty dictionary, the state in which `Compare` yields `RunBothFirst`.
      The program itself does not redraw the comparison here: it only blanks
      the comparison tab. */
  function ClearResults(): (r: Results)
    ensures r.bfsPath == [] && r.dfsPath == []
    ensures r.bfsStats == NotRun && r.dfsStats == NotRun
    ensures Compare(r.bfsStats, r.dfsStats) == RunBothFirst
  {
    Results([], [], NotRun, NotRun)
  }

  /** A list without repetitions has as many elements as its set. */
  lemma {:induction false} NoDupsCard(s: seq<Node>)
    requires NoDups(s)
    ensures |set x | x in s| == |s|
  {
    if s != [] {
      var rest := s[1..];
      assert NoDups(rest);
      NoDupsCard(rest);
      assert s[0] !in rest;
      assert (set x | x in s) == (set x | x in rest) + {s[0]};
    }
  }

  /** Two lists without repetitions that hold the same nodes are equally
      long. */
  lemma SameNodesSameLength(a: seq<Node>, b: seq<Node>)
    requires NoDups(a) && NoDups(b)
    requires forall n :: n in a <==> n in b
    ensures |a| == |b|
  {
    NoDupsCard(a);
    NoDupsCard(b);
    assert (set x | x in a) == (set x | x in b);
  }

  /** What pressing "Compare Algorithms" leads to: an error box when the
      graph has no nodes or no start node is selected, and otherwise the
      comparison of the two fresh records. */
  datatype Comparing = EmptyGraph | NoStartSelected | Compared(c: Outcome)

  /** `compare_algorithms`: both searches from the same start towards the
      same goal, then the comparison. With a start name that is not a node
      both records hold only the error and there is nothing to compare.
      Otherwise there is a report, and the rules of the two searches decide
      two of its rows: when no goal in force is reachable both searches visit
      the same nodes, so the node count is a tie that BFS wins; when the goal
      is reachable both find it, the path-length row is shown, and BFS wins it
      because its path to the goal is a shortest one. Both records are set
      just before the comparison, so it never asks for the searches to be
      run first. */
  method CompareAlgorithms(g: Graph, start: Node, goal: Option<Node>, bfsRun: Measurement, dfsRun: Measurement)
    returns (r: Comparing)
    ensures g.adj == map[] ==> r == EmptyGraph
    ensures g.adj != map[] && start == [] ==> r == NoStartSelected
    ensures g.adj != map[] && start != [] ==> r.Compared?
    ensures r.Compared? ==> r.c != RunBothFirst
    ensures r.Compared? && !g.HasNode(start) ==> r.c == StatsIncomplete
    ensures r.Compared? && g.HasNode(start) ==> r.c.Report? && |r.c.rows| >= 3
    ensures r.Compared? && g.HasNode(start) && !(GoalActive(goal) && g.Reachable(start, goal.value)) ==>
              && |r.c.rows| == 3
              && r.c.rows[0].bfs == r.c.rows[0].dfs
              && r.c.rows[0].winner == BFS
    ensures r.Compared? && g.HasNode(start) && GoalActive(goal) && g.Reachable(start, goal.value) ==>
              && r.c.goalPaths.Some?
              && |r.c.rows| == 4
              && r.c.rows[3].metric == PathLength
              && r.c.rows[3].winner == BFS
  {
    if g.adj == map[] {
      return EmptyGraph;
    }
    if start == [] {
      return NoStartSelected;
    }
    var bfsPath, bfsRec := BreadthFirstSearch(g, start, goal, bfsRun);
    var dfsPath, dfsRec := IterativeDepthFirstSearch(g, start, goal, dfsRun);
    var c := Compare(bfsRec, dfsRec);
    if g.HasNode(start) {
      if GoalActive(goal) && g.Reachable(start, goal.value) {
        assert Reached(goal, bfsPath) && Reached(goal, dfsPath);
        var b, d := bfsRec.stats, dfsRec.stats;
        assert b.goalPath != [] && d.goalPath != [];
        assert |b.goalPath| <= |d.goalPath|;
      } else {
        assert !Reached(goal, bfsPath) && !Reached(goal, dfsPath);
        SameNodesSameLength(bfsPath, dfsPath);
      }
    }
    r := Compared(c);
  }
}
