/** `Z3Parser::get_instantiation_graph`: the graph whose nodes are the line
    numbers of instantiations and whose edges are the dependencies between
    them.  Nodes are numbered in the order they are added (the graph's
    node indices); the graph is returned with the map from node index to
    line number. */
module Results {
  import opened Items
  import States

  /** A dependency the graph draws: closed, and not attributed to a
      quantifier the solver discovered. */
  predicate Drawn(d: Dependency) {
    !d.quantDiscovered && d.to.Some?
  }

  /** The lines a dependency asks nodes for, in the order the loop asks:
      its target, then its source unless that is line 0. */
  function LinesOf(d: Dependency): seq<nat> {
    if !Drawn(d) then [] else [d.to.value] + (if d.from > 0 then [d.from] else [])
  }

  /** Every line asked for, in order, with repetitions. */
  function Appearances(deps: seq<Dependency>): seq<nat>
    decreases |deps|
  {
    if deps == [] then [] else Appearances(deps[..|deps| - 1]) + LinesOf(deps[|deps| - 1])
  }

  /** `s` without repetitions, each element where it first occurs. */
  function Dedup(s: seq<nat>): seq<nat>
    decreases |s|
  {
    if s == [] then []
    else
      var d := Dedup(s[..|s| - 1]);
      if s[|s| - 1] in d then d else d + [s[|s| - 1]]
  }

  /** The drawn dependencies, in order. */
  function DrawnDeps(deps: seq<Dependency>): seq<Dependency>
    decreases |deps|
  {
    if deps == [] then []
    else DrawnDeps(deps[..|deps| - 1]) + (if Drawn(deps[|deps| - 1]) then [deps[|deps| - 1]] else [])
  }

  /** The drawn dependencies that get an edge: those whose source is a
      real line. */
  function Linked(deps: seq<Dependency>): seq<Dependency>
    decreases |deps|
  {
    if deps == [] then []
    else
      var d := deps[|deps| - 1];
      Linked(deps[..|deps| - 1]) + (if Drawn(d) && d.from > 0 then [d] else [])
  }

  /** The graph: node weights (line numbers) indexed by node, and edges
      between node indices. */
  datatype InstGraph = InstGraph(nodes: seq<nat>, edges: seq<(nat, nat)>)

  predicate Distinct(s: seq<nat>) {
    forall i, j | 0 <= i < j < |s| :: s[i] != s[j]
  }

  /** The edges of `g` realise `links` one for one: the k-th edge goes from
      the node of the k-th link's source to the node of its target. */
  predicate EdgesFor(g: InstGraph, links: seq<Dependency>) {
    |g.edges| == |links|
    && forall k | 0 <= k < |g.edges| ::
         g.edges[k].0 < |g.nodes| && g.edges[k].1 < |g.nodes|
         && links[k].to.Some?
         && g.nodes[g.edges[k].0] == links[k].from && g.nodes[g.edges[k].1] == links[k].to.value
  }

  /** The node maps agree with the node list: `node_of_line_nr` sends each
      node's line to its index and holds no other line, and
      `line_nr_of_node` is its inverse. */
  predicate Indexed(nodes: seq<nat>, nodeOfLine: map<nat, nat>, lineOfNode: map<nat, nat>) {
    (forall j | 0 <= j < |nodes| :: nodes[j] in nodeOfLine)
    && (forall x | x in nodeOfLine :: nodeOfLine[x] < |nodes| && nodes[nodeOfLine[x]] == x)
    && lineOfNode == NodeLines(nodes)
  }

  /** Node index to line number. */
  function NodeLines(nodes: seq<nat>): map<nat, nat> {
    map j | 0 <= j < |nodes| :: nodes[j]
  }

  lemma NodeLinesGrow(nodes: seq<nat>, line: nat)
    ensures NodeLines(nodes + [line]) == NodeLines(nodes)[|nodes| := line]
  {
  }

  /** Adds the node of `line` unless one carries it already (`fresh_line_nr`). */
  method AddLine(nodes: seq<nat>, nodeOfLine: map<nat, nat>, lineOfNode: map<nat, nat>, line: nat, ghost seen: seq<nat>)
    returns (nodes': seq<nat>, nodeOfLine': map<nat, nat>, lineOfNode': map<nat, nat>)
    requires nodes == Dedup(seen) && Indexed(nodes, nodeOfLine, lineOfNode)
    ensures nodes' == Dedup(seen + [line]) && Indexed(nodes', nodeOfLine', lineOfNode')
    ensures line in nodeOfLine' && forall x | x in nodeOfLine :: x in nodeOfLine' && nodeOfLine'[x] == nodeOfLine[x]
    ensures |nodes| <= |nodes'| && nodes'[..|nodes|] == nodes
  {
    DedupOne(seen, line);
    nodes', nodeOfLine', lineOfNode' := nodes, nodeOfLine, lineOfNode;
    if line !in nodes {
      nodeOfLine' := nodeOfLine[line := |nodes|];
      lineOfNode' := lineOfNode[|nodes| := line];
      nodes' := nodes + [line];
      NodeLinesGrow(nodes, line);
      forall x | x in nodeOfLine' ensures nodeOfLine'[x] < |nodes'| && nodes'[nodeOfLine'[x]] == x {
        if x != line {
          assert nodes'[nodeOfLine[x]] == nodes[nodeOfLine[x]];
        }
      }
    } else {
      var j :| 0 <= j < |nodes| && nodes[j] == line;
    }
  }

  /** Growing the node list keeps every edge where it was. */
  lemma EdgesKept(g: InstGraph, nodes': seq<nat>, links: seq<Dependency>)
    requires EdgesFor(g, links) && |g.nodes| <= |nodes'| && nodes'[..|g.nodes|] == g.nodes
    ensures EdgesFor(InstGraph(nodes', g.edges), links)
  {
    forall k | 0 <= k < |g.edges|
      ensures nodes'[g.edges[k].0] == g.nodes[g.edges[k].0] && nodes'[g.edges[k].1] == g.nodes[g.edges[k].1]
    {
      assert nodes'[..|g.nodes|][g.edges[k].0] == nodes'[g.edges[k].0];
      assert nodes'[..|g.nodes|][g.edges[k].1] == nodes'[g.edges[k].1];
    }
  }

  /** An edge between the nodes of a link's endpoints realises that link. */
  lemma EdgeAdded(g: InstGraph, links: seq<Dependency>, d: Dependency, e: (nat, nat))
    requires EdgesFor(g, links) && d.to.Some?
    requires e.0 < |g.nodes| && e.1 < |g.nodes| && g.nodes[e.0] == d.from && g.nodes[e.1] == d.to.value
    ensures EdgesFor(InstGraph(g.nodes, g.edges + [e]), links + [d])
  {
  }

  /** After both nodes are added, the edge between them realises the link. */
  lemma LinkDrawn(g: InstGraph, middle: seq<nat>, nodes': seq<nat>, links: seq<Dependency>, d: Dependency, e: (nat, nat))
    requires EdgesFor(g, links) && d.to.Some?
    requires |g.nodes| <= |middle| && middle[..|g.nodes|] == g.nodes
    requires |middle| <= |nodes'| && nodes'[..|middle|] == middle
    requires e.0 < |nodes'| && e.1 < |nodes'| && nodes'[e.0] == d.from && nodes'[e.1] == d.to.value
    ensures EdgesFor(InstGraph(nodes', g.edges + [e]), links + [d])
  {
    EdgesKept(g, middle, links);
    EdgesKept(InstGraph(middle, g.edges), nodes', links);
    EdgeAdded(InstGraph(nodes', g.edges), links, d, e);
  }

  /** One turn of the loop: a drawn dependency asks for the node of its
      target and, when its source is a real line, for the node of its
      source and an edge between the two. */
  method DrawDependency(nodes: seq<nat>, edges: seq<(nat, nat)>, nodeOfLine: map<nat, nat>,
                        lineOfNode: map<nat, nat>, dep: Dependency, ghost seen: seq<nat>, ghost links: seq<Dependency>)
    returns (nodes': seq<nat>, edges': seq<(nat, nat)>, nodeOfLine': map<nat, nat>, lineOfNode': map<nat, nat>)
    requires nodes == Dedup(seen) && Indexed(nodes, nodeOfLine, lineOfNode)
    requires EdgesFor(InstGraph(nodes, edges), links)
    ensures nodes' == Dedup(seen + LinesOf(dep)) && Indexed(nodes', nodeOfLine', lineOfNode')
    ensures EdgesFor(InstGraph(nodes', edges'), links + if Drawn(dep) && dep.from > 0 then [dep] else [])
  {
    if !dep.quantDiscovered && dep.to.Some? {
      if dep.from > 0 {
        nodes', edges', nodeOfLine', lineOfNode' := DrawLink(nodes, edges, nodeOfLine, lineOfNode, dep, seen, links);
      } else {
        var to := dep.to.value;
        nodes', nodeOfLine', lineOfNode' := AddLine(nodes, nodeOfLine, lineOfNode, to, seen);
        edges' := edges;
        EdgesKept(InstGraph(nodes, edges), nodes', links);
        assert LinesOf(dep) == [to];
        assert links + [] == links;
      }
    } else {
      nodes', edges', nodeOfLine', lineOfNode' := nodes, edges, nodeOfLine, lineOfNode;
      assert LinesOf(dep) == [];
      assert seen + [] == seen && links + [] == links;
    }
  }

  /** The turn of the loop for a drawn dependency whose source is a real
      line: both nodes, then the edge between them. */
  method DrawLink(nodes: seq<nat>, edges: seq<(nat, nat)>, nodeOfLine: map<nat, nat>,
                  lineOfNode: map<nat, nat>, dep: Dependency, ghost seen: seq<nat>, ghost links: seq<Dependency>)
    returns (nodes': seq<nat>, edges': seq<(nat, nat)>, nodeOfLine': map<nat, nat>, lineOfNode': map<nat, nat>)
    requires Drawn(dep) && dep.from > 0
    requires nodes == Dedup(seen) && Indexed(nodes, nodeOfLine, lineOfNode)
    requires EdgesFor(InstGraph(nodes, edges), links)
    ensures nodes' == Dedup(seen + LinesOf(dep)) && Indexed(nodes', nodeOfLine', lineOfNode')
    ensures EdgesFor(InstGraph(nodes', edges'), links + [dep])
  {
    var from, to := dep.from, dep.to.value;
    nodes', nodeOfLine', lineOfNode' := AddLine(nodes, nodeOfLine, lineOfNode, to, seen);
    ghost var middle := nodes';
    nodes', nodeOfLine', lineOfNode' := AddLine(nodes', nodeOfLine', lineOfNode', from, seen + [to]);
    assert seen + LinesOf(dep) == seen + [to] + [from];
    edges' := edges + [(nodeOfLine'[from], nodeOfLine'[to])];
    LinkDrawn(InstGraph(nodes, edges), middle, nodes', links, dep, (nodeOfLine'[from], nodeOfLine'[to]));
  }

  /** `get_instantiation_graph`: one pass over the dependencies.  The nodes
      are the lines the drawn dependencies name, each once, in order of
      first appearance; every drawn dependency with a real source line adds
      one edge; the returned map gives each node's line. */
  method InstantiationGraph(deps: seq<Dependency>) returns (g: InstGraph, lineOfNode: map<nat, nat>)
    ensures g.nodes == Dedup(Appearances(deps))
    ensures EdgesFor(g, Linked(deps))
    ensures lineOfNode == map j | 0 <= j < |g.nodes| :: g.nodes[j]
  {
    var nodes: seq<nat> := [];
    var edges: seq<(nat, nat)> := [];
    var nodeOfLine: map<nat, nat> := map[];
    lineOfNode := map[];
    for i := 0 to |deps|
      invariant nodes == Dedup(Appearances(deps[..i]))
      invariant Indexed(nodes, nodeOfLine, lineOfNode)
      invariant EdgesFor(InstGraph(nodes, edges), Linked(deps[..i]))
    {
      assert deps[..i + 1][..i] == deps[..i] && deps[..i + 1][i] == deps[i];
      nodes, edges, nodeOfLine, lineOfNode :=
        DrawDependency(nodes, edges, nodeOfLine, lineOfNode, deps[i], Appearances(deps[..i]), Linked(deps[..i]));
    }
    assert deps[..|deps|] == deps;
    g := InstGraph(nodes, edges);
  }

  lemma DedupOne(s: seq<nat>, x: nat)
    ensures Dedup(s + [x]) == if x in Dedup(s) then Dedup(s) else Dedup(s) + [x]
  {
    assert (s + [x])[..|s|] == s;
  }

  // ---------------------------------------------------------------------
  // What the graph is
  // ---------------------------------------------------------------------

  /** No two nodes carry the same line. */
  lemma {:induction false} DedupDistinct(s: seq<nat>)
    ensures Distinct(Dedup(s))
    decreases |s|
  {
    if s != [] {
      DedupDistinct(s[..|s| - 1]);
    }
  }

  /** Deduplication keeps every element and adds none. */
  lemma {:induction false} DedupElements(s: seq<nat>)
    ensures forall x :: x in Dedup(s) <==> x in s
    decreases |s|
  {
    if s != [] {
      DedupElements(s[..|s| - 1]);
      assert s == s[..|s| - 1] + [s[|s| - 1]];
    }
  }

  /** Every line asked for is named by some dependency. */
  lemma {:induction false} AppearanceSource(deps: seq<Dependency>, x: nat) returns (k: nat)
    requires x in Appearances(deps)
    ensures k < |deps| && x in LinesOf(deps[k])
    decreases |deps|
  {
    var init, last := deps[..|deps| - 1], deps[|deps| - 1];
    assert Appearances(deps) == Appearances(init) + LinesOf(last);
    if x in LinesOf(last) {
      k := |deps| - 1;
    } else {
      k := AppearanceSource(init, x);
      assert deps[k] == init[k];
    }
  }

  /** Every line a dependency names is asked for. */
  lemma {:induction false} AppearanceOf(deps: seq<Dependency>, k: nat, x: nat)
    requires k < |deps| && x in LinesOf(deps[k])
    ensures x in Appearances(deps)
    decreases |deps|
  {
    var init, last := deps[..|deps| - 1], deps[|deps| - 1];
    assert Appearances(deps) == Appearances(init) + LinesOf(last);
    if k < |init| {
      assert init[k] == deps[k];
      AppearanceOf(init, k, x);
    }
  }

  /** The nodes of the graph: pairwise distinct, and a line is a node
      exactly when a drawn dependency names it (its target, or its source
      when that is a real line). */
  lemma GraphNodes(deps: seq<Dependency>, x: nat)
    ensures Distinct(Dedup(Appearances(deps)))
    ensures x in Dedup(Appearances(deps)) <==>
      exists k | 0 <= k < |deps| :: Drawn(deps[k]) && (deps[k].to == Some(x) || (deps[k].from == x && x > 0))
  {
    DedupDistinct(Appearances(deps));
    DedupElements(Appearances(deps));
    if x in Appearances(deps) {
      var k := AppearanceSource(deps, x);
      assert Drawn(deps[k]) && (deps[k].to == Some(x) || (deps[k].from == x && x > 0));
    }
    if exists k | 0 <= k < |deps| :: Drawn(deps[k]) && (deps[k].to == Some(x) || (deps[k].from == x && x > 0)) {
      var k :| 0 <= k < |deps| && Drawn(deps[k]) && (deps[k].to == Some(x) || (deps[k].from == x && x > 0));
      AppearanceOf(deps, k, x);
    }
  }

  /** A dependency the graph does not draw, wherever it stands, asks for
      no node. */
  lemma {:induction false} UndrawnNoNode(a: seq<Dependency>, d: Dependency, b: seq<Dependency>)
    requires !Drawn(d)
    ensures Appearances(a + [d] + b) == Appearances(a + b)
    decreases |b|
  {
    if b == [] {
      assert (a + [d])[..|a|] == a;
      assert a + [d] + b == a + [d] && a + b == a;
    } else {
      var b' := b[..|b| - 1];
      UndrawnNoNode(a, d, b');
      assert (a + [d] + b)[..|a + [d] + b| - 1] == a + [d] + b';
      assert (a + b)[..|a + b| - 1] == a + b';
      assert (a + [d] + b)[|a + [d] + b| - 1] == (a + b)[|a + b| - 1];
    }
  }

  /** A dependency the graph does not draw, wherever it stands, adds no
      edge. */
  lemma {:induction false} UndrawnNoEdge(a: seq<Dependency>, d: Dependency, b: seq<Dependency>)
    requires !Drawn(d)
    ensures Linked(a + [d] + b) == Linked(a + b)
    decreases |b|
  {
    if b == [] {
      assert (a + [d])[..|a|] == a;
      assert a + [d] + b == a + [d] && a + b == a;
    } else {
      var b' := b[..|b| - 1];
      UndrawnNoEdge(a, d, b');
      assert (a + [d] + b)[..|a + [d] + b| - 1] == a + [d] + b';
      assert (a + b)[..|a + b| - 1] == a + b';
      assert (a + [d] + b)[|a + [d] + b| - 1] == (a + b)[|a + b| - 1];
    }
  }

  /** On the dependencies a valid parser state holds, every source is a
      real line, so every drawn dependency gets an edge. */
  lemma {:induction false} ClosedAllLinked(deps: seq<Dependency>)
    requires States.ClosedDeps(deps)
    ensures Linked(deps) == DrawnDeps(deps)
    decreases |deps|
  {
    if deps != [] {
      assert deps[|deps| - 1] in deps;
      assert forall d | d in deps[..|deps| - 1] :: d in deps;
      ClosedAllLinked(deps[..|deps| - 1]);
    }
  }
}
