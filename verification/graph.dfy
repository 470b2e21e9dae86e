/** The directed graph the application edits and searches: a `networkx.DiGraph`
    seen as a map from each node to its successors, kept in the order the edges
    were inserted. That order is the order `neighbors` yields, so it decides
    which branch a depth-first search takes first. */
module Graphs {

  /** A node is identified by the name the user typed. */
  type Node = string

  /** No element occurs twice. */
  predicate NoDups(s: seq<Node>) {
    forall i, j :: 0 <= i < j < |s| ==> s[i] != s[j]
  }

  /** `s` with `x` dropped and the order of the rest kept, as deleting a key
      from a Python dict keeps the order of the other keys. */
  function Without(s: seq<Node>, x: Node): (r: seq<Node>)
    ensures forall y :: y in r <==> y in s && y != x
    ensures |r| <= |s|
    ensures NoDups(s) ==> NoDups(r)
  {
    if s == [] then []
    else if s[0] == x then Without(s[1..], x)
    else
      var rest := Without(s[1..], x);
      assert NoDups(s) ==> s[0] !in s[1..] && NoDups(s[1..]);
      [s[0]] + rest
  }

  datatype Graph = Graph(adj: map<Node, seq<Node>>) {

    predicate HasNode(n: Node) {
      n in adj
    }

    /** `neighbors(n)`: the successors of `n` in edge-insertion order. A name
        that is not a node has none. */
    function Succ(n: Node): (succ: seq<Node>) {
      if n in adj then adj[n] else []
    }

    predicate HasEdge(u: Node, v: Node) {
      v in Succ(u)
    }

    /** What a DiGraph always satisfies: both ends of an edge are nodes, and an
        edge is stored at most once. */
    ghost predicate Valid() {
      && (forall u, v :: HasEdge(u, v) ==> HasNode(v))
      && (forall u :: NoDups(Succ(u)))
    }

    /** Every name the graph mentions, as a node or as the head of an edge. */
    ghost function Vertices(): (vs: set<Node>)
      ensures forall n :: HasNode(n) ==> n in vs
      ensures forall u, v :: HasEdge(u, v) ==> v in vs
    {
      adj.Keys + set u, v | u in adj && v in adj[u] :: v
    }

    /** `add_node`: a new node has no successors; adding an existing node
        changes nothing. */
    function AddNode(n: Node): (g: Graph)
      ensures forall x :: g.HasNode(x) <==> HasNode(x) || x == n
      ensures forall x :: g.Succ(x) == Succ(x)
    {
      if n in adj then this else Graph(adj[n := []])
    }

    /** `remove_node`: the node goes, and with it every edge into or out of it;
        the other successor lists keep their order. */
    function RemoveNode(n: Node): (g: Graph)
      ensures forall x :: g.HasNode(x) <==> HasNode(x) && x != n
      ensures forall x :: x != n ==> g.Succ(x) == Without(Succ(x), n)
      ensures g.Succ(n) == []
      ensures forall u, v :: g.HasEdge(u, v) <==> HasEdge(u, v) && u != n && v != n
    {
      Graph(map u | u in adj && u != n :: Without(adj[u], n))
    }

    /** `add_edge`: missing endpoints become nodes, and a new edge goes to the
        end of its tail's successor list; an existing edge keeps its place. */
    function AddEdge(u: Node, v: Node): (g: Graph)
      ensures forall x :: g.HasNode(x) <==> HasNode(x) || x == u || x == v
      ensures forall x, y :: g.HasEdge(x, y) <==> HasEdge(x, y) || (x == u && y == v)
      ensures g.Succ(u) == if HasEdge(u, v) then Succ(u) else Succ(u) + [v]
      ensures forall x :: x != u ==> g.Succ(x) == Succ(x)
    {
      var withV := if v in adj then adj else adj[v := []];
      var su := Succ(u);
      Graph(withV[u := if v in su then su else su + [v]])
    }

    /** `remove_edge`: the edge leaves its tail's successor list; the nodes and
        every other edge stay. */
    function RemoveEdge(u: Node, v: Node): (g: Graph)
      ensures forall x :: g.HasNode(x) <==> HasNode(x)
      ensures forall x, y :: g.HasEdge(x, y) <==> HasEdge(x, y) && !(x == u && y == v)
      ensures g.Succ(u) == Without(Succ(u), v)
      ensures forall x :: x != u ==> g.Succ(x) == Succ(x)
    {
      if u in adj then Graph(adj[u := Without(adj[u], v)]) else this
    }

    /** `clear`: no nodes, no edges. */
    function Clear(): (g: Graph)
      ensures forall x :: !g.HasNode(x) && g.Succ(x) == []
      ensures g.Valid()
    {
      Graph(map[])
    }

    /** A walk: a non-empty sequence of nodes, each consecutive pair an edge. */
    ghost predicate IsWalk(w: seq<Node>) {
      |w| > 0 && forall i :: 0 <= i < |w| - 1 ==> HasEdge(w[i], w[i + 1])
    }

    ghost predicate IsWalkBetween(w: seq<Node>, s: Node, t: Node) {
      IsWalk(w) && w[0] == s && w[|w| - 1] == t
    }

    ghost predicate Reachable(s: Node, t: Node) {
      exists w :: IsWalkBetween(w, s, t)
    }

    /** `t` is at most `k` edges away from `s`. */
    ghost predicate WithinSteps(s: Node, t: Node, k: nat) {
      exists w :: IsWalkBetween(w, s, t) && |w| <= k + 1
    }
  }

  /** Every edit keeps a well-formed graph well-formed. */
  lemma EditsKeepValid(g: Graph, u: Node, v: Node)
    requires g.Valid()
    ensures g.AddNode(u).Valid() && g.RemoveNode(u).Valid()
    ensures g.AddEdge(u, v).Valid() && g.RemoveEdge(u, v).Valid()
  {
    var a := g.AddNode(u);
    assert forall x, y :: a.HasEdge(x, y) ==> g.HasEdge(x, y);
  }

  lemma ReachableFromItself(g: Graph, s: Node)
    ensures g.Reachable(s, s)
  {
    assert g.IsWalkBetween([s], s, s);
  }

  /** A walk to `u` followed by the edge `u -> v` is a walk to `v`. */
  lemma ReachableStep(g: Graph, s: Node, u: Node, v: Node)
    requires g.Reachable(s, u) && g.HasEdge(u, v)
    ensures g.Reachable(s, v)
  {
    var w :| g.IsWalkBetween(w, s, u);
    var w' := w + [v];
    forall i | 0 <= i < |w'| - 1 ensures g.HasEdge(w'[i], w'[i + 1]) {
      if i < |w| - 1 { assert w'[i] == w[i] && w'[i + 1] == w[i + 1]; }
    }
    assert g.IsWalkBetween(w', s, v);
  }

  /** A set that holds `w[0]` and every successor of each of its members holds
      the whole walk. */
  lemma {:induction false} WalkStaysInClosedSet(g: Graph, w: seq<Node>, S: set<Node>)
    requires g.IsWalk(w) && w[0] in S
    requires forall x, y :: x in S && g.HasEdge(x, y) ==> y in S
    ensures forall i :: 0 <= i < |w| ==> w[i] in S
  {
    if |w| > 1 {
      var front := w[..|w| - 1];
      forall i | 0 <= i < |front| - 1 ensures g.HasEdge(front[i], front[i + 1]) {
        assert front[i] == w[i] && front[i + 1] == w[i + 1];
      }
      WalkStaysInClosedSet(g, front, S);
      assert w[|w| - 2] == front[|w| - 2] && g.HasEdge(w[|w| - 2], w[|w| - 1]);
    }
  }

  /** A set closed under successors that holds `s` holds everything reachable
      from `s`: the reason a search that empties its frontier has found every
      reachable node. */
  lemma ClosedSetHoldsReachable(g: Graph, s: Node, S: set<Node>)
    requires s in S
    requires forall x, y :: x in S && g.HasEdge(x, y) ==> y in S
    ensures forall t :: g.Reachable(s, t) ==> t in S
  {
    forall t | g.Reachable(s, t) ensures t in S {
      var w :| g.IsWalkBetween(w, s, t);
      WalkStaysInClosedSet(g, w, S);
    }
  }
}
