/**
 * What solver.js shows of a finished graph: the solution tree of `createTreeFromGraph`
 * and `createSubtreeElement` (its shape and its flags, not its DOM elements), and the
 * forward edges and level groups that `explored_nodes_to_dot` writes out.
 */
module Views {
  import opened Graphs

  // ---------------------------------------------------------------------------
  // `sorted(edges, edge => edge.dest)`: a sorted copy, stable on equal keys.

  predicate SortedByDest(es: seq<Edge>)
  {
    forall i, j :: 0 <= i < j < |es| ==> es[i].dest <= es[j].dest
  }

  /** `e` placed after every entry whose destination is not larger. */
  function Insert(e: Edge, es: seq<Edge>): seq<Edge>
  {
    if es == [] then [e]
    else if e.dest < es[0].dest then [e] + es
    else [es[0]] + Insert(e, es[1..])
  }

  function SortByDest(es: seq<Edge>): seq<Edge>
  {
    if es == [] then []
    else Insert(es[|es| - 1], SortByDest(es[..|es| - 1]))
  }

  lemma {:induction false} InsertMembers(e: Edge, es: seq<Edge>, x: Edge)
    ensures x in Insert(e, es) <==> x == e || x in es
  {
    if es != [] && e.dest >= es[0].dest {
      InsertMembers(e, es[1..], x);
      assert es == [es[0]] + es[1..];
    }
  }

  lemma {:induction false} InsertSorted(e: Edge, es: seq<Edge>)
    requires SortedByDest(es)
    ensures SortedByDest(Insert(e, es))
  {
    if es != [] && e.dest >= es[0].dest {
      var rest := Insert(e, es[1..]);
      InsertSorted(e, es[1..]);
      var r := [es[0]] + rest;
      forall j | 0 < j < |r| ensures es[0].dest <= r[j].dest {
        InsertMembers(e, es[1..], r[j]);
        assert r[j] in rest;
      }
    }
  }

  lemma {:induction false} InsertPermutes(e: Edge, es: seq<Edge>)
    ensures multiset(Insert(e, es)) == multiset(es) + multiset{e}
  {
    if es != [] && e.dest >= es[0].dest {
      InsertPermutes(e, es[1..]);
      assert es == [es[0]] + es[1..];
    }
  }

  /** The sorted copy is sorted by destination. */
  lemma {:induction false} SortByDestSorted(es: seq<Edge>)
    ensures SortedByDest(SortByDest(es))
  {
    if es != [] {
      var pre := es[..|es| - 1];
      SortByDestSorted(pre);
      InsertSorted(es[|es| - 1], SortByDest(pre));
    }
  }

  /** The sorted copy has the same edges, as many times each. */
  lemma {:induction false} SortByDestPermutes(es: seq<Edge>)
    ensures multiset(SortByDest(es)) == multiset(es)
  {
    if es != [] {
      var pre := es[..|es| - 1];
      SortByDestPermutes(pre);
      InsertPermutes(es[|es| - 1], SortByDest(pre));
      assert es == pre + [es[|es| - 1]];
    }
  }

  // ---------------------------------------------------------------------------
  // The forward edges, as `node.edges.filter(edge => edge.is_forward)`.

  function Forward(es: seq<Edge>): seq<Edge>
  {
    if es == [] then []
    else Forward(es[..|es| - 1]) + (if es[|es| - 1].isForward then [es[|es| - 1]] else [])
  }

  lemma {:induction false} ForwardMembers(es: seq<Edge>, e: Edge)
    ensures e in Forward(es) <==> e in es && e.isForward
  {
    if es != [] {
      var pre := es[..|es| - 1];
      ForwardMembers(pre, e);
      assert es == pre + [es[|es| - 1]];
    }
  }

  /** The children of `u` in the tree: its forward edges, sorted by destination. */
  function Children(nodes: map<int, Node>, u: int): seq<Edge>
    requires u in nodes
  {
    SortByDest(Forward(nodes[u].edges))
  }

  lemma ChildrenMembers(nodes: map<int, Node>, u: int)
    requires u in nodes
    ensures SortedByDest(Children(nodes, u))
    ensures forall e :: e in Children(nodes, u) <==> e in nodes[u].edges && e.isForward
  {
    SortByDestSorted(Forward(nodes[u].edges));
    SortByDestPermutes(Forward(nodes[u].edges));
    forall e ensures e in Children(nodes, u) <==> e in nodes[u].edges && e.isForward {
      ForwardMembers(nodes[u].edges, e);
      assert e in Children(nodes, u) <==> e in multiset(Children(nodes, u));
    }
  }

  /** Forward edges lead to nodes of the graph strictly lower down, never below zero:
      what makes the tree finite. */
  ghost predicate Descending(nodes: map<int, Node>)
  {
    forall u, e :: u in nodes && e in nodes[u].edges && e.isForward ==>
      e.dest in nodes && 0 <= nodes[e.dest].movesLeft < nodes[u].movesLeft
  }

  // ---------------------------------------------------------------------------
  // The solution tree.

  /** A subtree element: the node's value, the label of the edge that led to it as its
      tooltip, and the classes `goal`, `leaf` and `before_leaves`. */
  datatype Tree = Tree(value: int, tooltip: string, goal: bool, leaf: bool, beforeLeaves: bool, children: seq<Tree>)

  predicate AllLeaves(ts: seq<Tree>)
  {
    forall i :: 0 <= i < |ts| ==> ts[i].leaf
  }

  predicate AnyGoal(ts: seq<Tree>)
  {
    exists i :: 0 <= i < |ts| && ts[i].goal
  }

  /** `createSubtreeElement(parent_text, parent_tooltip, is_goal, children_elements)`:
      a leaf when there are no children; otherwise `before_leaves` when every child is a
      leaf, and a goal when some child is. */
  function MakeSubtree(value: int, tooltip: string, isGoal: bool, children: seq<Tree>): (t: Tree)
    ensures t.value == value && t.tooltip == tooltip && t.children == children
    ensures t.leaf <==> |children| == 0
    ensures t.beforeLeaves <==> |children| > 0 && forall i :: 0 <= i < |children| ==> children[i].leaf
    ensures t.goal <==> isGoal || exists i :: 0 <= i < |children| && children[i].goal
  {
    if children == [] then Tree(value, tooltip, isGoal, true, false, [])
    else Tree(value, tooltip, isGoal || AnyGoal(children), false, AllLeaves(children), children)
  }

  /** `recursive_create_subtree_for_node(node, tooltip)` for the node with value `u`. */
  function Subtree(nodes: map<int, Node>, u: int, tooltip: string): Tree
    requires Descending(nodes) && u in nodes
    decreases nodes[u].movesLeft, 1
  {
    ChildrenMembers(nodes, u);
    MakeSubtree(nodes[u].value, tooltip, nodes[u].isGoal, Forest(nodes, Children(nodes, u), nodes[u].movesLeft))
  }

  /** `edges.map(edge => recursive_create_subtree_for_node(graph.get_node(edge.dest), edge.label))` */
  function Forest(nodes: map<int, Node>, es: seq<Edge>, level: int): seq<Tree>
    requires Descending(nodes)
    requires forall e :: e in es ==> e.dest in nodes && 0 <= nodes[e.dest].movesLeft < level
    decreases level, 0, |es|
  {
    if es == [] then []
    else [Subtree(nodes, es[0].dest, es[0].text)] + Forest(nodes, es[1..], level)
  }

  /** `createTreeFromGraph(graph)`: the subtree of the start node, with an empty
      tooltip. */
  function SolutionTree(nodes: map<int, Node>, start: int): Tree
    requires Descending(nodes) && start in nodes
  {
    Subtree(nodes, start, "")
  }

  /** One child per edge, in the edges' order, showing the edge's destination and
      labelled with the edge's text. */
  lemma {:induction false} ForestShape(nodes: map<int, Node>, es: seq<Edge>, level: int)
    requires Descending(nodes)
    requires forall e :: e in es ==> e.dest in nodes && 0 <= nodes[e.dest].movesLeft < level
    ensures |Forest(nodes, es, level)| == |es|
    ensures forall i :: 0 <= i < |es| ==>
              Forest(nodes, es, level)[i] == Subtree(nodes, es[i].dest, es[i].text)
  {
    if es != [] {
      ForestShape(nodes, es[1..], level);
      var f := Forest(nodes, es, level);
      forall i | 0 < i < |es| ensures f[i] == Subtree(nodes, es[i].dest, es[i].text) {
        assert es[i] == es[1..][i - 1];
      }
    }
  }

  /** The children of a subtree are the subtrees of the destinations of the node's
      forward edges, each labelled by its edge, in ascending order of destination. */
  lemma SubtreeChildren(nodes: map<int, Node>, u: int, tooltip: string)
    requires Descending(nodes) && u in nodes
    ensures var t := Subtree(nodes, u, tooltip);
            var es := Children(nodes, u);
            && t.value == nodes[u].value && t.tooltip == tooltip
            && |t.children| == |es|
            && (forall i :: 0 <= i < |es| ==> es[i] in nodes[u].edges && es[i].isForward)
            && (forall e :: e in nodes[u].edges && e.isForward ==> e in es)
            && (forall i :: 0 <= i < |es| ==> t.children[i] == Subtree(nodes, es[i].dest, es[i].text))
            && (forall i, j :: 0 <= i < j < |es| ==> es[i].dest <= es[j].dest)
  {
    ChildrenMembers(nodes, u);
    ForestShape(nodes, Children(nodes, u), nodes[u].movesLeft);
  }

  /** `u` has at least one forward edge. */
  ghost predicate HasForward(nodes: map<int, Node>, u: int)
    requires u in nodes
  {
    exists e :: e in nodes[u].edges && e.isForward
  }

  /** A subtree is a leaf exactly when its node has no forward edge. */
  lemma SubtreeLeaf(nodes: map<int, Node>, u: int, tooltip: string)
    requires Descending(nodes) && u in nodes
    ensures Subtree(nodes, u, tooltip).leaf <==> !HasForward(nodes, u)
  {
    SubtreeChildren(nodes, u, tooltip);
    var es := Children(nodes, u);
    if HasForward(nodes, u) {
      var e :| e in nodes[u].edges && e.isForward;
      assert e in es;
    }
  }

  /** A subtree is marked `before_leaves` exactly when its node has a forward edge and
      every forward edge leads to a node with none. */
  lemma SubtreeBeforeLeaves(nodes: map<int, Node>, u: int, tooltip: string)
    requires Descending(nodes) && u in nodes
    ensures Subtree(nodes, u, tooltip).beforeLeaves <==>
            HasForward(nodes, u) &&
            forall e :: e in nodes[u].edges && e.isForward ==> !HasForward(nodes, e.dest)
  {
    SubtreeChildren(nodes, u, tooltip);
    SubtreeLeaf(nodes, u, tooltip);
    var t := Subtree(nodes, u, tooltip);
    var es := Children(nodes, u);
    forall i | 0 <= i < |es| ensures t.children[i].leaf <==> !HasForward(nodes, es[i].dest) {
      SubtreeLeaf(nodes, es[i].dest, es[i].text);
    }
    if forall e :: e in nodes[u].edges && e.isForward ==> !HasForward(nodes, e.dest) {
      assert forall i :: 0 <= i < |es| ==> t.children[i].leaf;
    }
    if t.beforeLeaves {
      assert forall i :: 0 <= i < |es| ==> !HasForward(nodes, es[i].dest);
      assert forall e :: e in es ==> !HasForward(nodes, e.dest);
    }
  }

  /** `path` is a chain of forward edges leading from `u` to `w`. */
  ghost predicate ForwardPath(nodes: map<int, Node>, u: int, path: seq<Edge>, w: int)
    decreases |path|
  {
    && u in nodes
    && if path == [] then u == w
       else path[0] in nodes[u].edges && path[0].isForward && ForwardPath(nodes, path[0].dest, path[1..], w)
  }

  /** A chain of forward edges extended by one more forward edge. */
  lemma {:induction false} ForwardPathSnoc(nodes: map<int, Node>, u: int, path: seq<Edge>, p: int, e: Edge)
    requires ForwardPath(nodes, u, path, p)
    requires p in nodes && e in nodes[p].edges && e.isForward && e.dest in nodes
    ensures ForwardPath(nodes, u, path + [e], e.dest)
    decreases |path|
  {
    if path != [] {
      ForwardPathSnoc(nodes, path[0].dest, path[1..], p, e);
      assert (path + [e])[1..] == path[1..] + [e];
    } else {
      assert ForwardPath(nodes, e.dest, [], e.dest);
      assert ([] + [e])[1..] == [];
    }
  }

  ghost predicate GoalAt(nodes: map<int, Node>, w: int)
  {
    w in nodes && nodes[w].isGoal
  }

  /** A goal reached along forward edges makes the subtree a goal. */
  lemma {:induction false} GoalPathMarks(nodes: map<int, Node>, u: int, tooltip: string, path: seq<Edge>, w: int)
    requires Descending(nodes) && u in nodes
    requires ForwardPath(nodes, u, path, w) && GoalAt(nodes, w)
    ensures Subtree(nodes, u, tooltip).goal
    decreases |path|
  {
    if path != [] {
      var e := path[0];
      var es := Children(nodes, u);
      SubtreeChildren(nodes, u, tooltip);
      var k :| 0 <= k < |es| && es[k] == e;
      GoalPathMarks(nodes, e.dest, e.text, path[1..], w);
      assert Subtree(nodes, u, tooltip).children[k].goal;
    }
  }

  /** A goal subtree has a goal reached along forward edges from its node. */
  lemma GoalMarkHasPath(nodes: map<int, Node>, u: int, tooltip: string) returns (path: seq<Edge>, w: int)
    requires Descending(nodes) && u in nodes
    requires Subtree(nodes, u, tooltip).goal
    ensures ForwardPath(nodes, u, path, w) && GoalAt(nodes, w)
    decreases nodes[u].movesLeft
  {
    var es := Children(nodes, u);
    var t := Subtree(nodes, u, tooltip);
    SubtreeChildren(nodes, u, tooltip);
    if nodes[u].isGoal {
      path, w := [], u;
    } else {
      var k :| 0 <= k < |t.children| && t.children[k].goal;
      var e := es[k];
      var rest;
      rest, w := GoalMarkHasPath(nodes, e.dest, e.text);
      path := [e] + rest;
      assert path[1..] == rest;
    }
  }

  /** A subtree carries the `goal` class exactly when a goal node can be reached from
      its node along forward edges. */
  lemma SubtreeGoal(nodes: map<int, Node>, u: int, tooltip: string)
    requires Descending(nodes) && u in nodes
    ensures Subtree(nodes, u, tooltip).goal <==>
            exists path, w :: ForwardPath(nodes, u, path, w) && GoalAt(nodes, w)
  {
    if Subtree(nodes, u, tooltip).goal {
      var path, w := GoalMarkHasPath(nodes, u, tooltip);
      assert ForwardPath(nodes, u, path, w) && GoalAt(nodes, w);
      assert exists path', w' :: ForwardPath(nodes, u, path', w') && GoalAt(nodes, w');
    }
    if exists path, w :: ForwardPath(nodes, u, path, w) && GoalAt(nodes, w) {
      var path, w :| ForwardPath(nodes, u, path, w) && GoalAt(nodes, w);
      GoalPathMarks(nodes, u, tooltip, path, w);
    }
  }

  // ---------------------------------------------------------------------------
  // The data behind `explored_nodes_to_dot`.

  /** The forward edges of one node as (source, destination, label), in edge order. */
  function ForwardOut(u: int, es: seq<Edge>): seq<(int, int, string)>
  {
    if es == [] then []
    else
      var e := es[|es| - 1];
      ForwardOut(u, es[..|es| - 1]) + (if e.isForward then [(u, e.dest, e.text)] else [])
  }

  /** The forward edges of all nodes, node by node in node-list order. */
  function ForwardEdges(list: seq<int>, nodes: map<int, Node>): seq<(int, int, string)>
    requires AllIn(list, nodes)
  {
    if list == [] then []
    else
      var u := list[|list| - 1];
      ForwardEdges(list[..|list| - 1], nodes) + ForwardOut(nodes[u].value, nodes[u].edges)
  }

  lemma {:induction false} ForwardOutMembers(u: int, es: seq<Edge>, t: (int, int, string))
    ensures t in ForwardOut(u, es) <==> t.0 == u && Edge(t.1, t.2, true) in es
  {
    if es != [] {
      var pre := es[..|es| - 1];
      ForwardOutMembers(u, pre, t);
      assert es == pre + [es[|es| - 1]];
    }
  }

  /** The export lists a triple exactly when some listed node has that value and a
      forward edge with that destination and label. */
  lemma {:induction false} ForwardEdgesMembers(list: seq<int>, nodes: map<int, Node>, t: (int, int, string))
    requires AllIn(list, nodes)
    ensures t in ForwardEdges(list, nodes) <==>
            exists u :: u in list && nodes[u].value == t.0 && Edge(t.1, t.2, true) in nodes[u].edges
  {
    if list != [] {
      var pre := list[..|list| - 1];
      var last := list[|list| - 1];
      assert list == pre + [last];
      assert AllIn(pre, nodes);
      ForwardEdgesMembers(pre, nodes, t);
      ForwardOutMembers(nodes[last].value, nodes[last].edges, t);
    }
  }

  /** The level groups, `{ rank=same; ... }` once per entry of `nodes_by_moves`. */
  function Ranks(buckets: seq<Bucket>): (r: seq<seq<int>>)
    ensures |r| == |buckets|
  {
    if buckets == [] then []
    else Ranks(buckets[..|buckets| - 1]) + [buckets[|buckets| - 1].values]
  }

  lemma {:induction false} RanksShape(buckets: seq<Bucket>)
    ensures |Ranks(buckets)| == |buckets|
    ensures forall i :: 0 <= i < |buckets| ==> Ranks(buckets)[i] == buckets[i].values
  {
    if buckets != [] {
      RanksShape(buckets[..|buckets| - 1]);
    }
  }

  /** In a grouping of the node list, every listed value is in exactly one level group:
      the one for its moves-left count, where values keep node-list order. */
  lemma RanksPartition(buckets: seq<Bucket>, list: seq<int>, nodes: map<int, Node>)
    requires AllIn(list, nodes) && Groups(buckets, list, nodes)
    ensures var r := Ranks(buckets);
            && (forall i :: 0 <= i < |r| ==> r[i] == AtLevel(list, nodes, buckets[i].moves))
            && (forall u :: u in list <==> exists i :: 0 <= i < |r| && u in r[i])
            && (forall i, j, u :: 0 <= i < |r| && 0 <= j < |r| && u in r[i] && u in r[j] ==> i == j)
  {
    RanksShape(buckets);
    GroupsCover(buckets, list, nodes);
    GroupsDisjoint(buckets, list, nodes);
  }

  /** A listed value lies in some group, and a value in a group is listed. */
  lemma GroupsCover(buckets: seq<Bucket>, list: seq<int>, nodes: map<int, Node>)
    requires AllIn(list, nodes)
    requires forall i :: 0 <= i < |buckets| ==> buckets[i].values == AtLevel(list, nodes, buckets[i].moves)
    requires forall m :: !HasKey(buckets, m) ==> AtLevel(list, nodes, m) == []
    ensures forall u :: u in list <==> exists i :: 0 <= i < |buckets| && u in buckets[i].values
  {
    forall u ensures u in list <==> exists i :: 0 <= i < |buckets| && u in buckets[i].values {
      if u in list {
        var m := nodes[u].movesLeft;
        AtLevelMembers(list, nodes, m, u);
        var i :| 0 <= i < |buckets| && buckets[i].moves == m;
        assert u in buckets[i].values;
      }
      if exists i :: 0 <= i < |buckets| && u in buckets[i].values {
        var i :| 0 <= i < |buckets| && u in buckets[i].values;
        AtLevelMembers(list, nodes, buckets[i].moves, u);
      }
    }
  }

  /** Groups with distinct counts share no value. */
  lemma GroupsDisjoint(buckets: seq<Bucket>, list: seq<int>, nodes: map<int, Node>)
    requires AllIn(list, nodes) && KeysDistinct(buckets)
    requires forall i :: 0 <= i < |buckets| ==> buckets[i].values == AtLevel(list, nodes, buckets[i].moves)
    ensures forall i, j, u ::
              0 <= i < |buckets| && 0 <= j < |buckets| && u in buckets[i].values && u in buckets[j].values
              ==> i == j
  {
    forall i, j, u | 0 <= i < |buckets| && 0 <= j < |buckets| && u in buckets[i].values && u in buckets[j].values
      ensures i == j
    {
      AtLevelMembers(list, nodes, buckets[i].moves, u);
      AtLevelMembers(list, nodes, buckets[j].moves, u);
    }
  }

  /** The ranks come in the order of `nodes_by_moves`, the order in which their counts
      first occur in the node list: each rank starts with the first listed node of its
      count, and those first positions increase from rank to rank. */
  lemma RanksInOrder(buckets: seq<Bucket>, list: seq<int>, nodes: map<int, Node>)
    requires AllIn(list, nodes) && Groups(buckets, list, nodes)
    ensures var r := Ranks(buckets);
            && (forall i :: 0 <= i < |r| ==>
                  r[i] != [] && FirstAt(list, nodes, buckets[i].moves) < |list| &&
                  r[i][0] == list[FirstAt(list, nodes, buckets[i].moves)])
            && (forall i, j :: 0 <= i < j < |r| ==>
                  FirstAt(list, nodes, buckets[i].moves) < FirstAt(list, nodes, buckets[j].moves))
  {
    RanksShape(buckets);
    forall i | 0 <= i < |buckets|
      ensures FirstAt(list, nodes, buckets[i].moves) < |list|
      ensures AtLevel(list, nodes, buckets[i].moves)[0] == list[FirstAt(list, nodes, buckets[i].moves)]
    {
      AtLevelHead(list, nodes, buckets[i].moves);
    }
    assert InFirstOrder(buckets, list, nodes);
  }

  /** The inner loop of `explored_nodes_to_dot`: the forward edges of one node. */
  method NodeForwardEdges(node: Node) returns (out: seq<(int, int, string)>)
    ensures out == ForwardOut(node.value, node.edges)
  {
    out := [];
    var j := 0;
    while j < |node.edges|
      invariant 0 <= j <= |node.edges|
      invariant out == ForwardOut(node.value, node.edges[..j])
    {
      var edge := node.edges[j];
      if edge.isForward {
        out := out + [(node.value, edge.dest, edge.text)];
      }
      assert node.edges[..j + 1][..j] == node.edges[..j];
      j := j + 1;
    }
    assert node.edges[..j] == node.edges;
  }

  /** The first loop of `explored_nodes_to_dot`: the forward edges of every node, in
      node-list order. */
  method DotEdges(g: Graph) returns (edges: seq<(int, int, string)>)
    requires g.Valid()
    ensures AllIn(g.nodeList, g.nodeMap)
    ensures edges == ForwardEdges(g.nodeList, g.nodeMap)
  {
    var list := g.nodeList;
    assert forall v :: v in list ==> v in g.nodeMap;
    edges := [];
    var i := 0;
    while i < |list|
      invariant 0 <= i <= |list|
      invariant forall k :: 0 <= k < |list| ==> list[k] in g.nodeMap
      invariant AllIn(list[..i], g.nodeMap)
      invariant edges == ForwardEdges(list[..i], g.nodeMap)
    {
      var out := NodeForwardEdges(g.nodeMap[list[i]]);
      edges := edges + out;
      assert list[..i + 1][..i] == list[..i];
      i := i + 1;
    }
    assert list[..i] == list;
  }

  /** The second loop of `explored_nodes_to_dot`: one group per entry of
      `nodes_by_moves`, in insertion order. */
  method DotRanks(g: Graph) returns (ranks: seq<seq<int>>)
    ensures ranks == Ranks(g.nodesByMoves)
  {
    ranks := [];
    var k := 0;
    while k < |g.nodesByMoves|
      invariant 0 <= k <= |g.nodesByMoves|
      invariant ranks == Ranks(g.nodesByMoves[..k])
    {
      assert g.nodesByMoves[..k + 1][..k] == g.nodesByMoves[..k];
      ranks := ranks + [g.nodesByMoves[k].values];
      k := k + 1;
    }
    assert g.nodesByMoves[..k] == g.nodesByMoves;
  }
}
