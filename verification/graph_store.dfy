/** The batch edits behind the "Add Node", "Remove Node", "Add Edge", "Remove
    Edge" and "Clear Graph" buttons. Each takes the whole text of an entry,
    splits it into items, and treats the items one at a time against the graph
    as it stands: an item that cannot be applied adds one error and leaves the
    graph as it was, and the items after it are still applied. */
module GraphStore {
  import opened Wrappers
  import opened Graphs
  import opened TextItems

  /** One error per rejected item (the message box text is built from these
      fields), or the complaint about an entry with no items at all. */
  datatype EditError =
    | NoNodeNames
    | NoEdgeTexts
    | NodeExists(node: Node)
    | NodeMissing(node: Node)
    | BadEdgeFormat(text: string)
    | EndpointMissing(u: Node, v: Node)
    | EdgeExists(u: Node, v: Node)
    | EdgeMissing(u: Node, v: Node)

  /** Which button was pressed. */
  datatype Edit = AddNodes | RemoveNodes | AddEdges | RemoveEdges

  /** "Add Node" for one name: rejected if it is already a node. */
  function AddNodeItem(g: Graph, item: string): (r: (Graph, Option<EditError>))
    ensures r.1.None? <==> !g.HasNode(item)
    ensures r.1.Some? ==> r.0 == g && r.1 == Some(NodeExists(item))
    ensures r.1.None? ==> r.0 == g.AddNode(item)
  {
    if g.HasNode(item) then (g, Some(NodeExists(item))) else (g.AddNode(item), None)
  }

  /** "Remove Node" for one name: rejected if it is not a node. */
  function RemoveNodeItem(g: Graph, item: string): (r: (Graph, Option<EditError>))
    ensures r.1.None? <==> g.HasNode(item)
    ensures r.1.Some? ==> r.0 == g && r.1 == Some(NodeMissing(item))
    ensures r.1.None? ==> r.0 == g.RemoveNode(item)
  {
    if !g.HasNode(item) then (g, Some(NodeMissing(item))) else (g.RemoveNode(item), None)
  }

  /** "Add Edge" for one `u-v` text: rejected without a dash, when an end is
      not a node, or when the edge is already there. */
  function AddEdgeItem(g: Graph, item: string): (r: (Graph, Option<EditError>))
    ensures r.1.None? <==> ParseEdge(item).Some? && g.HasNode(ParseEdge(item).value.0)
                           && g.HasNode(ParseEdge(item).value.1)
                           && !g.HasEdge(ParseEdge(item).value.0, ParseEdge(item).value.1)
    ensures r.1.Some? ==> r.0 == g
    ensures r.1.None? ==> r.0 == g.AddEdge(ParseEdge(item).value.0, ParseEdge(item).value.1)
    ensures ParseEdge(item).None? ==> r.1 == Some(BadEdgeFormat(item))
    ensures ParseEdge(item).Some? ==>
              var (u, v) := ParseEdge(item).value;
              && (!g.HasNode(u) || !g.HasNode(v) ==> r.1 == Some(EndpointMissing(u, v)))
              && (g.HasNode(u) && g.HasNode(v) && g.HasEdge(u, v) ==> r.1 == Some(EdgeExists(u, v)))
  {
    match ParseEdge(item)
    case None => (g, Some(BadEdgeFormat(item)))
    case Some((u, v)) =>
      if !g.HasNode(u) || !g.HasNode(v) then (g, Some(EndpointMissing(u, v)))
      else if g.HasEdge(u, v) then (g, Some(EdgeExists(u, v)))
      else (g.AddEdge(u, v), None)
  }

  /** "Remove Edge" for one `u-v` text: rejected without a dash or when there
      is no such edge. */
  function RemoveEdgeItem(g: Graph, item: string): (r: (Graph, Option<EditError>))
    ensures r.1.None? <==> ParseEdge(item).Some?
                           && g.HasEdge(ParseEdge(item).value.0, ParseEdge(item).value.1)
    ensures r.1.Some? ==> r.0 == g
    ensures r.1.None? ==> r.0 == g.RemoveEdge(ParseEdge(item).value.0, ParseEdge(item).value.1)
    ensures ParseEdge(item).None? ==> r.1 == Some(BadEdgeFormat(item))
    ensures ParseEdge(item).Some? && r.1.Some? ==>
              r.1 == Some(EdgeMissing(ParseEdge(item).value.0, ParseEdge(item).value.1))
  {
    match ParseEdge(item)
    case None => (g, Some(BadEdgeFormat(item)))
    case Some((u, v)) =>
      if !g.HasEdge(u, v) then (g, Some(EdgeMissing(u, v)))
      else (g.RemoveEdge(u, v), None)
  }

  /** One item of a batch against the current graph: the graph afterwards and
      the error the item raised, if any. */
  function ApplyItem(op: Edit, g: Graph, item: string): (r: (Graph, Option<EditError>)) {
    match op
    case AddNodes => AddNodeItem(g, item)
    case RemoveNodes => RemoveNodeItem(g, item)
    case AddEdges => AddEdgeItem(g, item)
    case RemoveEdges => RemoveEdgeItem(g, item)
  }

  /** The whole batch, item by item from the left: the final graph and the
      errors in item order. */
  function ApplyBatch(op: Edit, g: Graph, items: seq<string>): (r: (Graph, seq<EditError>))
    ensures |r.1| <= |items|
  {
    if items == [] then (g, [])
    else
      var before := ApplyBatch(op, g, items[..|items| - 1]);
      var step := ApplyItem(op, before.0, items[|items| - 1]);
      (step.0, WithError(before.1, step.1))
  }

  /** The error list after one more item. */
  function WithError(errors: seq<EditError>, e: Option<EditError>): (r: seq<EditError>) {
    if e.Some? then errors + [e.value] else errors
  }

  /** Every batch edit keeps the graph a well-formed directed graph. */
  lemma {:induction false} ApplyBatchKeepsValid(op: Edit, g: Graph, items: seq<string>)
    requires g.Valid()
    ensures ApplyBatch(op, g, items).0.Valid()
  {
    if items != [] {
      ApplyBatchKeepsValid(op, g, items[..|items| - 1]);
      var before, x := ApplyBatch(op, g, items[..|items| - 1]).0, items[|items| - 1];
      var uv := if '-' in x then ParseEdge(x).value else (x, x);
      EditsKeepValid(before, uv.0, uv.1);
      EditsKeepValid(before, x, x);
    }
  }

  lemma LastItem(items: seq<string>)
    requires items != []
    ensures items == items[..|items| - 1] + [items[|items| - 1]]
  {
  }

  /** A batch one item longer is the shorter batch followed by that item. */
  lemma ApplyBatchSnoc(op: Edit, g: Graph, items: seq<string>, i: nat)
    requires i < |items|
    ensures var before := ApplyBatch(op, g, items[..i]);
            var step := ApplyItem(op, before.0, items[i]);
            ApplyBatch(op, g, items[..i + 1]) == (step.0, WithError(before.1, step.1))
  {
    assert items[..i + 1][..i] == items[..i];
  }

  /** Adding a batch of node names: afterwards the nodes are the old ones plus
      every item, no successor list changes, and every error is a
      `NodeExists` for one of the items. */
  lemma {:induction false} AddNodesBatch(g: Graph, items: seq<string>)
    ensures var r := ApplyBatch(AddNodes, g, items);
            && (forall x :: r.0.HasNode(x) <==> g.HasNode(x) || x in items)
            && (forall x :: r.0.Succ(x) == g.Succ(x))
            && (forall e :: e in r.1 ==> e.NodeExists? && e.node in items)
  {
    if items != [] {
      var init, x := items[..|items| - 1], items[|items| - 1];
      assert items == init + [x];
      AddNodesBatch(g, init);
      var before := ApplyBatch(AddNodes, g, init);
      var step := AddNodeItem(before.0, x);
      assert ApplyBatch(AddNodes, g, items) == (step.0, WithError(before.1, step.1));
    }
  }

  /** Every item of an "Add Node" batch either adds one node or raises one
      error: the errors and the new node count add up to the item count plus
      the old node count. */
  lemma {:induction false} AddNodesErrorCount(g: Graph, items: seq<string>)
    ensures var r := ApplyBatch(AddNodes, g, items);
            |r.1| + |r.0.adj.Keys| == |items| + |g.adj.Keys|
  {
    if items != [] {
      var init, x := items[..|items| - 1], items[|items| - 1];
      AddNodesErrorCount(g, init);
      var before := ApplyBatch(AddNodes, g, init);
      var step := AddNodeItem(before.0, x);
      assert ApplyBatch(AddNodes, g, items) == (step.0, WithError(before.1, step.1));
      if step.1.None? {
        assert step.0.adj.Keys == before.0.adj.Keys + {x};
      }
    }
  }

  /** Removing a batch of node names: afterwards the nodes are the old ones
      minus every item, exactly the edges with both ends kept remain, and
      every error is a `NodeMissing` for one of the items. */
  lemma {:induction false} RemoveNodesBatch(g: Graph, items: seq<string>)
    requires g.Valid()
    ensures var r := ApplyBatch(RemoveNodes, g, items);
            && (forall x :: r.0.HasNode(x) <==> g.HasNode(x) && x !in items)
            && (forall u, v :: r.0.HasEdge(u, v) <==> g.HasEdge(u, v) && u !in items && v !in items)
            && (forall e :: e in r.1 ==> e.NodeMissing? && e.node in items)
  {
    if items != [] {
      var init, x := items[..|items| - 1], items[|items| - 1];
      assert items == init + [x];
      RemoveNodesBatch(g, init);
      var before := ApplyBatch(RemoveNodes, g, init);
      var step := RemoveNodeItem(before.0, x);
      assert ApplyBatch(RemoveNodes, g, items) == (step.0, WithError(before.1, step.1));
      assert forall y :: y in items <==> y in init || y == x;
      forall u, v ensures step.0.HasEdge(u, v) <==> g.HasEdge(u, v) && u !in items && v !in items {
        if step.1.None? {
          assert step.0.HasEdge(u, v) <==> before.0.HasEdge(u, v) && u != x && v != x;
        } else {
          assert before.0.HasEdge(u, v) ==> before.0.HasNode(u) && before.0.HasNode(v);
        }
      }
    }
  }

  /** Every item of a "Remove Node" batch either removes one node or raises
      one error. */
  lemma {:induction false} RemoveNodesErrorCount(g: Graph, items: seq<string>)
    ensures var r := ApplyBatch(RemoveNodes, g, items);
            |r.1| + |g.adj.Keys| == |items| + |r.0.adj.Keys|
  {
    if items != [] {
      var init, x := items[..|items| - 1], items[|items| - 1];
      RemoveNodesErrorCount(g, init);
      var before := ApplyBatch(RemoveNodes, g, init);
      var step := RemoveNodeItem(before.0, x);
      assert ApplyBatch(RemoveNodes, g, items) == (step.0, WithError(before.1, step.1));
      if step.1.None? {
        assert step.0.adj.Keys == before.0.adj.Keys - {x};
      }
    }
  }

  /** What each item of the batch parses to, in order. */
  function Parses(items: seq<string>): (ps: seq<Option<(Node, Node)>>)
    ensures |ps| == |items|
  {
    if items == [] then [] else Parses(items[..|items| - 1]) + [ParseEdge(items[|items| - 1])]
  }

  /** Some item of the batch is the text of the edge `u -> v`. */
  ghost predicate Names(items: seq<string>, u: Node, v: Node) {
    Some((u, v)) in Parses(items)
  }

  lemma NamesSnoc(init: seq<string>, x: string, u: Node, v: Node)
    ensures Names(init + [x], u, v) <==> Names(init, u, v) || ParseEdge(x) == Some((u, v))
  {
    assert (init + [x])[..|init|] == init;
  }

  /** After one "Add Edge" item, `u -> v` is an edge when it was one, or when
      the item names it and both ends are nodes. */
  lemma AddEdgeItemEdge(h: Graph, x: string, u: Node, v: Node)
    ensures AddEdgeItem(h, x).0.HasEdge(u, v) <==>
              h.HasEdge(u, v) || (h.HasNode(u) && h.HasNode(v) && ParseEdge(x) == Some((u, v)))
  {
    if AddEdgeItem(h, x).1.None? {
      var (a, b) := ParseEdge(x).value;
      assert AddEdgeItem(h, x).0.HasEdge(u, v) <==> h.HasEdge(u, v) || (u == a && v == b);
    }
  }

  /** One "Add Edge" item keeps the nodes. */
  lemma AddEdgeItemKeepsNodes(h: Graph, x: string)
    ensures forall n :: AddEdgeItem(h, x).0.HasNode(n) <==> h.HasNode(n)
  {
  }

  /** One "Add Edge" item only ever appends to a successor list. */
  lemma AddEdgeItemAppends(h: Graph, x: string)
    ensures forall n :: h.Succ(n) <= AddEdgeItem(h, x).0.Succ(n)
  {
    var r := AddEdgeItem(h, x);
    if r.1.None? {
      var (a, b) := ParseEdge(x).value;
      AddEdgeAppends(h, a, b);
    } else {
      SuccPrefixOfSelf(h);
    }
  }

  lemma SuccPrefixOfSelf(h: Graph)
    ensures forall n :: h.Succ(n) <= h.Succ(n)
  {
    forall n ensures h.Succ(n) <= h.Succ(n) {
      assert h.Succ(n)[..|h.Succ(n)|] == h.Succ(n);
    }
  }

  /** A new edge is appended to its source's successor list. */
  lemma AddEdgeAppends(h: Graph, a: Node, b: Node)
    requires !h.HasEdge(a, b)
    ensures forall n :: h.Succ(n) <= h.AddEdge(a, b).Succ(n)
  {
    var after := h.AddEdge(a, b);
    assert (h.Succ(a) + [b])[..|h.Succ(a)|] == h.Succ(a);
    forall n ensures h.Succ(n) <= after.Succ(n) {
      if n != a {
        assert h.Succ(n)[..|h.Succ(n)|] == h.Succ(n);
      }
    }
  }

  lemma PrefixTrans(a: seq<Node>, b: seq<Node>, c: seq<Node>)
    requires a <= b && b <= c
    ensures a <= c
  {
    assert c[..|a|] == b[..|a|];
  }

  /** After one "Remove Edge" item, `u -> v` is an edge when it was one and
      the item does not name it. */
  lemma RemoveEdgeItemEdge(h: Graph, x: string, u: Node, v: Node)
    ensures RemoveEdgeItem(h, x).0.HasEdge(u, v) <==> h.HasEdge(u, v) && ParseEdge(x) != Some((u, v))
  {
    if RemoveEdgeItem(h, x).1.None? {
      var (a, b) := ParseEdge(x).value;
      assert RemoveEdgeItem(h, x).0.HasEdge(u, v) <==> h.HasEdge(u, v) && !(u == a && v == b);
    }
  }

  /** Adding a batch of edges: the nodes stay; afterwards the edges are the
      old ones plus every item that names two existing nodes; each successor
      list only grows at its end, so the old order is kept. */
  lemma {:induction false} AddEdgesBatch(g: Graph, items: seq<string>)
    ensures var r := ApplyBatch(AddEdges, g, items);
            && (forall x :: r.0.HasNode(x) <==> g.HasNode(x))
            && (forall u, v :: r.0.HasEdge(u, v) <==>
                  g.HasEdge(u, v) || (g.HasNode(u) && g.HasNode(v) && Names(items, u, v)))
            && (forall x :: g.Succ(x) <= r.0.Succ(x))
  {
    if items != [] {
      var init, x := items[..|items| - 1], items[|items| - 1];
      assert items == init + [x];
      AddEdgesBatch(g, init);
      var before := ApplyBatch(AddEdges, g, init);
      var step := AddEdgeItem(before.0, x);
      assert ApplyBatch(AddEdges, g, items) == (step.0, WithError(before.1, step.1));
      AddEdgeItemKeepsNodes(before.0, x);
      AddEdgeItemAppends(before.0, x);
      forall n ensures g.Succ(n) <= step.0.Succ(n) {
        PrefixTrans(g.Succ(n), before.0.Succ(n), step.0.Succ(n));
      }
      forall u, v
        ensures step.0.HasEdge(u, v) <==>
                  g.HasEdge(u, v) || (g.HasNode(u) && g.HasNode(v) && Names(items, u, v))
      {
        NamesSnoc(init, x, u, v);
        AddEdgeItemEdge(before.0, x, u, v);
      }
    } else {
      SuccPrefixOfSelf(g);
    }
  }

  /** Removing a batch of edges: the nodes stay, and afterwards the edges are
      the old ones minus those some item names. */
  lemma {:induction false} RemoveEdgesBatch(g: Graph, items: seq<string>)
    ensures var r := ApplyBatch(RemoveEdges, g, items);
            && (forall x :: r.0.HasNode(x) <==> g.HasNode(x))
            && (forall u, v :: r.0.HasEdge(u, v) <==> g.HasEdge(u, v) && !Names(items, u, v))
  {
    if items != [] {
      var init, x := items[..|items| - 1], items[|items| - 1];
      assert items == init + [x];
      RemoveEdgesBatch(g, init);
      var before := ApplyBatch(RemoveEdges, g, init);
      var step := RemoveEdgeItem(before.0, x);
      assert ApplyBatch(RemoveEdges, g, items) == (step.0, WithError(before.1, step.1));
      forall u, v
        ensures step.0.HasEdge(u, v) <==> g.HasEdge(u, v) && !Names(items, u, v)
      {
        NamesSnoc(init, x, u, v);
        RemoveEdgeItemEdge(before.0, x, u, v);
      }
    }
  }

  /** The edges of a graph, as pairs. */
  ghost function Edges(g: Graph): (es: set<(Node, Node)>)
    ensures forall u, v :: (u, v) in es <==> g.HasEdge(u, v)
  {
    set u, v | u in g.adj && v in g.adj[u] :: (u, v)
  }

  /** A new edge adds one pair to the edges. */
  lemma EdgesOfAddEdge(h: Graph, u: Node, v: Node)
    requires !h.HasEdge(u, v)
    ensures |Edges(h.AddEdge(u, v))| == |Edges(h)| + 1
  {
    var before, after := Edges(h), Edges(h.AddEdge(u, v));
    forall p | p in after ensures p in before + {(u, v)} {
      assert h.AddEdge(u, v).HasEdge(p.0, p.1);
    }
    forall p | p in before + {(u, v)} ensures p in after {
      if p != (u, v) {
        assert h.HasEdge(p.0, p.1);
      }
    }
    assert after == before + {(u, v)};
  }

  /** Removing an existing edge takes one pair from the edges. */
  lemma EdgesOfRemoveEdge(h: Graph, u: Node, v: Node)
    requires h.HasEdge(u, v)
    ensures |Edges(h)| == |Edges(h.RemoveEdge(u, v))| + 1
  {
    var before, after := Edges(h), Edges(h.RemoveEdge(u, v));
    forall p | p in before ensures p in after + {(u, v)} {
      assert h.HasEdge(p.0, p.1);
    }
    forall p | p in after + {(u, v)} ensures p in before {
      if p != (u, v) {
        assert h.RemoveEdge(u, v).HasEdge(p.0, p.1);
      }
    }
    assert before == after + {(u, v)};
  }

  /** One accepted "Add Edge" item adds exactly one edge. */
  lemma AddEdgeItemCount(h: Graph, x: string)
    ensures var step := AddEdgeItem(h, x);
            step.1.None? ==> |Edges(step.0)| == |Edges(h)| + 1
  {
    if AddEdgeItem(h, x).1.None? {
      EdgesOfAddEdge(h, ParseEdge(x).value.0, ParseEdge(x).value.1);
    }
  }

  /** One accepted "Remove Edge" item removes exactly one edge. */
  lemma RemoveEdgeItemCount(h: Graph, x: string)
    ensures var step := RemoveEdgeItem(h, x);
            step.1.None? ==> |Edges(h)| == |Edges(step.0)| + 1
  {
    if RemoveEdgeItem(h, x).1.None? {
      EdgesOfRemoveEdge(h, ParseEdge(x).value.0, ParseEdge(x).value.1);
    }
  }

  /** Every item of an "Add Edge" batch either adds one edge or raises one
      error: the errors and the new edge count add up to the item count plus
      the old edge count. */
  lemma {:induction false} AddEdgesErrorCount(g: Graph, items: seq<string>)
    ensures var r := ApplyBatch(AddEdges, g, items);
            |r.1| + |Edges(r.0)| == |items| + |Edges(g)|
  {
    if items != [] {
      var init, x := items[..|items| - 1], items[|items| - 1];
      AddEdgesErrorCount(g, init);
      AddEdgeItemCount(ApplyBatch(AddEdges, g, init).0, x);
    }
  }

  /** Every item of a "Remove Edge" batch either removes one edge or raises
      one error. */
  lemma {:induction false} RemoveEdgesErrorCount(g: Graph, items: seq<string>)
    ensures var r := ApplyBatch(RemoveEdges, g, items);
            |r.1| + |Edges(g)| == |items| + |Edges(r.0)|
  {
    if items != [] {
      var init, x := items[..|items| - 1], items[|items| - 1];
      RemoveEdgesErrorCount(g, init);
      RemoveEdgeItemCount(ApplyBatch(RemoveEdges, g, init).0, x);
    }
  }

  /** Why an "Add Edge" item was rejected: it has no dash, or it names an
      edge one of whose ends is not a node, or it names an edge the graph
      already has (and still has at the end of the batch). */
  ghost predicate AddEdgeRejection(g: Graph, after: Graph, items: seq<string>, e: EditError) {
    || (e.BadEdgeFormat? && e.text in items && ParseEdge(e.text).None?)
    || (e.EndpointMissing? && Names(items, e.u, e.v) && !(g.HasNode(e.u) && g.HasNode(e.v)))
    || (e.EdgeExists? && Names(items, e.u, e.v) && after.HasEdge(e.u, e.v))
  }

  /** A rejection stays explained when the batch grows by one item. */
  lemma AddEdgeRejectionSnoc(g: Graph, h: Graph, init: seq<string>, x: string, e: EditError)
    requires AddEdgeRejection(g, h, init, e)
    ensures AddEdgeRejection(g, AddEdgeItem(h, x).0, init + [x], e)
  {
    if e.BadEdgeFormat? {
      assert e.text in init + [x];
    } else {
      NamesSnoc(init, x, e.u, e.v);
      AddEdgeItemEdge(h, x, e.u, e.v);
    }
  }

  /** Every error of the list is explained. */
  ghost predicate AddEdgeErrorsExplained(g: Graph, after: Graph, items: seq<string>, errors: seq<EditError>) {
    forall e :: e in errors ==> AddEdgeRejection(g, after, items, e)
  }

  /** The rejection of the last item of a batch is explained. */
  lemma AddEdgeRejectionLast(g: Graph, h: Graph, init: seq<string>, x: string)
    requires forall n :: h.HasNode(n) <==> g.HasNode(n)
    requires AddEdgeItem(h, x).1.Some?
    ensures AddEdgeRejection(g, AddEdgeItem(h, x).0, init + [x], AddEdgeItem(h, x).1.value)
  {
    var items := init + [x];
    assert items[|init|] == x;
    var step := AddEdgeItem(h, x);
    if ParseEdge(x).None? {
      assert step.1 == Some(BadEdgeFormat(x));
      assert x in items;
    } else {
      var (u, v) := ParseEdge(x).value;
      NamesSnoc(init, x, u, v);
      if !h.HasNode(u) || !h.HasNode(v) {
        assert step.1 == Some(EndpointMissing(u, v));
      } else {
        assert h.HasEdge(u, v) && step.0 == h;
        assert step.1 == Some(EdgeExists(u, v));
      }
    }
  }

  /** One more "Add Edge" item keeps every error explained. */
  lemma AddEdgeErrorsSnoc(g: Graph, h: Graph, errors: seq<EditError>, init: seq<string>, x: string)
    requires forall n :: h.HasNode(n) <==> g.HasNode(n)
    requires AddEdgeErrorsExplained(g, h, init, errors)
    ensures var step := AddEdgeItem(h, x);
            AddEdgeErrorsExplained(g, step.0, init + [x], WithError(errors, step.1))
  {
    var step := AddEdgeItem(h, x);
    forall e | e in WithError(errors, step.1) ensures AddEdgeRejection(g, step.0, init + [x], e) {
      if e in errors {
        AddEdgeRejectionSnoc(g, h, init, x, e);
      } else {
        AddEdgeRejectionLast(g, h, init, x);
      }
    }
  }

  /** Every error of an "Add Edge" batch says why its item was rejected. */
  lemma {:induction false} AddEdgesErrors(g: Graph, items: seq<string>)
    ensures var r := ApplyBatch(AddEdges, g, items);
            AddEdgeErrorsExplained(g, r.0, items, r.1)
  {
    if items != [] {
      var init, x := items[..|items| - 1], items[|items| - 1];
      AddEdgesErrors(g, init);
      AddEdgesBatch(g, init);
      var before := ApplyBatch(AddEdges, g, init);
      AddEdgeErrorsSnoc(g, before.0, before.1, init, x);
      assert items == init + [x];
    }
  }

  /** Why a "Remove Edge" item was rejected: it has no dash, or it names an
      edge the graph does not have (nor has at the end of the batch). */
  ghost predicate RemoveEdgeRejection(after: Graph, items: seq<string>, e: EditError) {
    || (e.BadEdgeFormat? && e.text in items && ParseEdge(e.text).None?)
    || (e.EdgeMissing? && Names(items, e.u, e.v) && !after.HasEdge(e.u, e.v))
  }

  ghost predicate RemoveEdgeErrorsExplained(after: Graph, items: seq<string>, errors: seq<EditError>) {
    forall e :: e in errors ==> RemoveEdgeRejection(after, items, e)
  }

  /** One more "Remove Edge" item keeps every error explained. */
  lemma RemoveEdgeErrorsSnoc(h: Graph, errors: seq<EditError>, init: seq<string>, x: string)
    requires RemoveEdgeErrorsExplained(h, init, errors)
    ensures var step := RemoveEdgeItem(h, x);
            RemoveEdgeErrorsExplained(step.0, init + [x], WithError(errors, step.1))
  {
    var step, items := RemoveEdgeItem(h, x), init + [x];
    forall e | e in WithError(errors, step.1) ensures RemoveEdgeRejection(step.0, items, e) {
      if e in errors {
        if e.BadEdgeFormat? {
          assert e.text in items;
        } else {
          NamesSnoc(init, x, e.u, e.v);
          RemoveEdgeItemEdge(h, x, e.u, e.v);
        }
      } else {
        assert items[|init|] == x;
        match ParseEdge(x)
        case None =>
        case Some((u, v)) =>
          NamesSnoc(init, x, u, v);
      }
    }
  }

  /** Every error of a "Remove Edge" batch says why its item was rejected. */
  lemma {:induction false} RemoveEdgesErrors(g: Graph, items: seq<string>)
    ensures var r := ApplyBatch(RemoveEdges, g, items);
            RemoveEdgeErrorsExplained(r.0, items, r.1)
  {
    if items != [] {
      var init, x := items[..|items| - 1], items[|items| - 1];
      RemoveEdgesErrors(g, init);
      var before := ApplyBatch(RemoveEdges, g, init);
      RemoveEdgeErrorsSnoc(before.0, before.1, init, x);
      LastItem(items);
    }
  }

  /** The graph the application holds and edits in place. */
  class Store {
    var graph: Graph

    ghost predicate Valid()
      reads this
    {
      graph.Valid()
    }

    constructor ()
      ensures Valid() && graph == Graph(map[])
    {
      graph := Graph(map[]);
    }

    /** "Add Node": every item of the entry that is not yet a node becomes
        one. */
    method AddNodes(text: string) returns (errors: seq<EditError>)
      requires Valid()
      modifies this
      ensures Valid()
      ensures Items(text) == [] ==> graph == old(graph) && errors == [NoNodeNames]
      ensures Items(text) != [] ==> (graph, errors) == ApplyBatch(Edit.AddNodes, old(graph), Items(text))
    {
      var nodes := Items(text);
      if nodes == [] {
        return [NoNodeNames];
      }
      errors := [];
      for i := 0 to |nodes|
        invariant graph == ApplyBatch(Edit.AddNodes, old(graph), nodes[..i]).0
        invariant errors == ApplyBatch(Edit.AddNodes, old(graph), nodes[..i]).1
      {
        var node := nodes[i];
        ghost var want := ApplyItem(Edit.AddNodes, graph, node);
        ghost var errorsBefore := errors;
        ApplyBatchSnoc(Edit.AddNodes, old(graph), nodes, i);
        if graph.HasNode(node) {
          errors := errors + [NodeExists(node)];
        } else {
          graph := graph.AddNode(node);
        }
        assert graph == want.0 && errors == WithError(errorsBefore, want.1);
      }
      assert nodes[..|nodes|] == nodes;
      ApplyBatchKeepsValid(Edit.AddNodes, old(graph), nodes);
    }

    /** "Remove Node": every item of the entry that is a node goes, with its
        edges. */
    method RemoveNodes(text: string) returns (errors: seq<EditError>)
      requires Valid()
      modifies this
      ensures Valid()
      ensures Items(text) == [] ==> graph == old(graph) && errors == [NoNodeNames]
      ensures Items(text) != [] ==> (graph, errors) == ApplyBatch(Edit.RemoveNodes, old(graph), Items(text))
    {
      var nodes := Items(text);
      if nodes == [] {
        return [NoNodeNames];
      }
      errors := [];
      for i := 0 to |nodes|
        invariant graph == ApplyBatch(Edit.RemoveNodes, old(graph), nodes[..i]).0
        invariant errors == ApplyBatch(Edit.RemoveNodes, old(graph), nodes[..i]).1
      {
        var node := nodes[i];
        ghost var want := ApplyItem(Edit.RemoveNodes, graph, node);
        ghost var errorsBefore := errors;
        ApplyBatchSnoc(Edit.RemoveNodes, old(graph), nodes, i);
        if !graph.HasNode(node) {
          errors := errors + [NodeMissing(node)];
        } else {
          graph := graph.RemoveNode(node);
        }
        assert graph == want.0 && errors == WithError(errorsBefore, want.1);
      }
      assert nodes[..|nodes|] == nodes;
      ApplyBatchKeepsValid(Edit.RemoveNodes, old(graph), nodes);
    }

    /** "Add Edge": every `u-v` item whose ends are both nodes and which is not
        already an edge is added. */
    method AddEdges(text: string) returns (errors: seq<EditError>)
      requires Valid()
      modifies this
      ensures Valid()
      ensures Items(text) == [] ==> graph == old(graph) && errors == [NoEdgeTexts]
      ensures Items(text) != [] ==> (graph, errors) == ApplyBatch(Edit.AddEdges, old(graph), Items(text))
    {
      var edgeTexts := Items(text);
      if edgeTexts == [] {
        return [NoEdgeTexts];
      }
      errors := [];
      for i := 0 to |edgeTexts|
        invariant graph == ApplyBatch(Edit.AddEdges, old(graph), edgeTexts[..i]).0
        invariant errors == ApplyBatch(Edit.AddEdges, old(graph), edgeTexts[..i]).1
      {
        var edgeText := edgeTexts[i];
        ApplyBatchSnoc(Edit.AddEdges, old(graph), edgeTexts, i);
        if '-' !in edgeText {
          errors := errors + [BadEdgeFormat(edgeText)];
          continue;
        }
        var uv := ParseEdge(edgeText).value;
        var u, v := uv.0, uv.1;
        if !graph.HasNode(u) || !graph.HasNode(v) {
          errors := errors + [EndpointMissing(u, v)];
          continue;
        }
        if graph.HasEdge(u, v) {
          errors := errors + [EdgeExists(u, v)];
          continue;
        }
        graph := graph.AddEdge(u, v);
      }
      assert edgeTexts[..|edgeTexts|] == edgeTexts;
      ApplyBatchKeepsValid(Edit.AddEdges, old(graph), edgeTexts);
    }

    /** "Remove Edge": every `u-v` item that is an edge is removed. */
    method RemoveEdges(text: string) returns (errors: seq<EditError>)
      requires Valid()
      modifies this
      ensures Valid()
      ensures Items(text) == [] ==> graph == old(graph) && errors == [NoEdgeTexts]
      ensures Items(text) != [] ==> (graph, errors) == ApplyBatch(Edit.RemoveEdges, old(graph), Items(text))
    {
      var edgeTexts := Items(text);
      if edgeTexts == [] {
        return [NoEdgeTexts];
      }
      errors := [];
      for i := 0 to |edgeTexts|
        invariant graph == ApplyBatch(Edit.RemoveEdges, old(graph), edgeTexts[..i]).0
        invariant errors == ApplyBatch(Edit.RemoveEdges, old(graph), edgeTexts[..i]).1
      {
        var edgeText := edgeTexts[i];
        ApplyBatchSnoc(Edit.RemoveEdges, old(graph), edgeTexts, i);
        if '-' !in edgeText {
          errors := errors + [BadEdgeFormat(edgeText)];
          continue;
        }
        var uv := ParseEdge(edgeText).value;
        var u, v := uv.0, uv.1;
        if !graph.HasEdge(u, v) {
          errors := errors + [EdgeMissing(u, v)];
          continue;
        }
        graph := graph.RemoveEdge(u, v);
      }
      assert edgeTexts[..|edgeTexts|] == edgeTexts;
      ApplyBatchKeepsValid(Edit.RemoveEdges, old(graph), edgeTexts);
    }

    /** "Clear Graph": no nodes and no edges remain. */
    method ClearGraph()
      modifies this
      ensures Valid()
      ensures forall x :: !graph.HasNode(x) && graph.Succ(x) == []
    {
      graph := graph.Clear();
    }
  }
}
