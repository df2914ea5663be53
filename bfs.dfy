/**
 * The loop of `breadth_first_search` in solver.js: a first-in first-out queue of values
 * whose nodes still wait for their turn, a measure that shows the loop ends, and what
 * the finished graph means: every node is reached from the start by exactly as many
 * presses as its budget dropped, and by no fewer.
 */
module BreadthFirst {
  import opened Wrappers
  import opened Text
  import opened Graphs
  import opened Search

  /** `w` is reached from `a` by exactly `n` presses whose results are integers. */
  ghost predicate Reaches(buttons: seq<Action>, a: int, w: int, n: nat)
    decreases n
  {
    if n == 0 then a == w
    else exists p :: Reaches(buttons, a, p, n - 1) && Move(buttons, p, w)
  }

  /** `base` to the power `k`, counting a non-positive `k` as zero. */
  function Budget(base: nat, k: int): (r: nat)
    requires base >= 1
    ensures r >= 1
  {
    if k <= 0 then 1 else PowAtLeastOne(base, k); Pow(base, k)
  }

  /** The termination measure: the sum over the queue of `base` to the power of each
      queued node's moves left. */
  function Weight(queue: seq<int>, nodes: map<int, Node>, base: nat): nat
    requires base >= 1
    requires forall i :: 0 <= i < |queue| ==> queue[i] in nodes
  {
    if queue == [] then 0
    else Budget(base, nodes[queue[0]].movesLeft) + Weight(queue[1..], nodes, base)
  }

  lemma {:induction false} WeightAppend(a: seq<int>, b: seq<int>, nodes: map<int, Node>, base: nat)
    requires base >= 1
    requires forall i :: 0 <= i < |a| ==> a[i] in nodes
    requires forall i :: 0 <= i < |b| ==> b[i] in nodes
    ensures forall i :: 0 <= i < |a + b| ==> (a + b)[i] in nodes
    ensures Weight(a + b, nodes, base) == Weight(a, nodes, base) + Weight(b, nodes, base)
  {
    if a == [] {
      assert a + b == b;
    } else {
      assert (a + b)[1..] == a[1..] + b;
      WeightAppend(a[1..], b, nodes, base);
    }
  }

  /** The measure depends only on the moves-left counts of the queued nodes. */
  lemma {:induction false} WeightFrame(queue: seq<int>, nodes: map<int, Node>, nodes': map<int, Node>, base: nat)
    requires base >= 1
    requires forall i :: 0 <= i < |queue| ==> queue[i] in nodes && queue[i] in nodes'
    requires forall i :: 0 <= i < |queue| ==> nodes[queue[i]].movesLeft == nodes'[queue[i]].movesLeft
    ensures Weight(queue, nodes, base) == Weight(queue, nodes', base)
  {
    if queue != [] {
      WeightFrame(queue[1..], nodes, nodes', base);
    }
  }

  /** Nodes all at level `k` weigh `base` to the power `k` each. */
  lemma {:induction false} WeightLevel(queue: seq<int>, nodes: map<int, Node>, base: nat, k: int)
    requires base >= 1
    requires forall i :: 0 <= i < |queue| ==> queue[i] in nodes && nodes[queue[i]].movesLeft == k
    ensures Weight(queue, nodes, base) == |queue| * Budget(base, k)
  {
    if queue != [] {
      WeightLevel(queue[1..], nodes, base, k);
    }
  }

  /** The nodes that still wait: no value twice, every one in the graph, none with an
      edge yet. */
  ghost predicate Frontier(nodes: map<int, Node>, queue: seq<int>)
  {
    && (forall i, j :: 0 <= i < j < |queue| ==> queue[i] != queue[j])
    && (forall i :: 0 <= i < |queue| ==> queue[i] in nodes && nodes[queue[i]].edges == [])
  }

  /** The queue goes down by levels: its moves-left counts never increase from front to
      back, and no node of the graph is more than one level below the front. */
  ghost predicate Layered(nodes: map<int, Node>, queue: seq<int>)
    requires Frontier(nodes, queue)
  {
    && (forall i, j :: 0 <= i < j < |queue| ==> nodes[queue[i]].movesLeft >= nodes[queue[j]].movesLeft)
    && (queue != [] ==> forall u :: u in nodes ==> nodes[u].movesLeft >= nodes[queue[0]].movesLeft - 1)
  }

  /** Every edge of `u` leads to a node at most one level below `u`. */
  ghost predicate Closed(nodes: map<int, Node>, u: int)
    requires u in nodes
  {
    forall i :: 0 <= i < |nodes[u].edges| ==>
      nodes[u].edges[i].dest in nodes && nodes[nodes[u].edges[i].dest].movesLeft >= nodes[u].movesLeft - 1
  }

  /** A node whose turn is over. */
  ghost predicate Done(nodes: map<int, Node>, u: int, buttons: seq<Action>)
    requires u in nodes
  {
    Expanded(nodes, u, buttons) && Closed(nodes, u)
  }

  /** Every node but the start was discovered from a node one level up, by one press,
      and has a budget of zero or more; no node has more than the start's budget. */
  ghost predicate Parents(nodes: map<int, Node>, buttons: seq<Action>, start: int, moves: int, parent: map<int, int>)
  {
    && (forall u :: u in nodes ==> nodes[u].movesLeft <= moves)
    && (forall u :: u in nodes && u != start ==>
          && u in parent && parent[u] in nodes
          && Move(buttons, parent[u], u)
          && nodes[parent[u]].movesLeft == nodes[u].movesLeft + 1
          && nodes[u].movesLeft >= 0)
  }

  /** What holds each time the loop of `breadth_first_search` is about to test the
      queue. */
  ghost predicate SearchState(nodes: map<int, Node>, queue: seq<int>, buttons: seq<Action>,
                              start: int, moves: int, parent: map<int, int>)
  {
    && start in nodes && nodes[start].movesLeft == moves
    && Frontier(nodes, queue)
    && Layered(nodes, queue)
    && (forall u :: u in nodes && u !in queue ==> Done(nodes, u, buttons))
    && (forall u :: u in nodes ==> !nodes[u].isGoal)
    && Parents(nodes, buttons, start, moves, parent)
  }

  lemma SearchStarts(start: int, moves: int, buttons: seq<Action>)
    ensures SearchState(map[start := NewNode(start, moves)], [start], buttons, start, moves, map[])
  {
  }

  /** Dequeuing a node with no moves left changes nothing else, and the measure drops. */
  lemma SkipStep(nodes: map<int, Node>, queue: seq<int>, buttons: seq<Action>,
                 start: int, moves: int, parent: map<int, int>)
    requires SearchState(nodes, queue, buttons, start, moves, parent)
    requires queue != [] && nodes[queue[0]].movesLeft <= 0
    ensures SearchState(nodes, queue[1..], buttons, start, moves, parent)
    ensures Weight(queue[1..], nodes, |buttons| + 1) < Weight(queue, nodes, |buttons| + 1)
  {
    var rest := queue[1..];
    forall u | u in nodes && u !in rest ensures Done(nodes, u, buttons) {
      if u == queue[0] {
      } else {
        assert u !in queue by {
          forall i | 0 <= i < |queue| ensures queue[i] != u {
            if i > 0 { assert queue[i] == rest[i - 1]; }
          }
        }
      }
    }
    if rest != [] {
      assert nodes[rest[0]].movesLeft <= nodes[queue[0]].movesLeft;
    }
  }

  /** What `Expand` promises about one expansion, for the node at the front of the
      queue. */
  ghost predicate Expansion(nodes: map<int, Node>, nodes': map<int, Node>, v: int, buttons: seq<Action>,
                            discovered: seq<int>)
    requires v in nodes
  {
    && Extends(nodes, nodes', v)
    && EdgesFor(nodes', v, Successors(buttons, v))
    && (forall i, j :: 0 <= i < j < |discovered| ==> discovered[i] != discovered[j])
    && (forall u :: u in nodes' <==> u in nodes || u in discovered)
    && NewNodes(nodes, nodes', discovered, nodes[v].movesLeft)
    && (forall u :: u in discovered ==> Move(buttons, v, u))
  }

  lemma FrontierStep(nodes: map<int, Node>, nodes': map<int, Node>, queue: seq<int>, buttons: seq<Action>, discovered: seq<int>)
    requires Frontier(nodes, queue) && queue != []
    requires Expansion(nodes, nodes', queue[0], buttons, discovered)
    ensures Frontier(nodes', queue[1..] + discovered)
  {
    var v := queue[0];
    var rest := queue[1..];
    var q := rest + discovered;
    forall i | 0 <= i < |q| ensures q[i] in nodes' && nodes'[q[i]].edges == [] {
      if i < |rest| {
        assert q[i] == queue[i + 1] && queue[i + 1] != v;
      } else {
        assert q[i] == discovered[i - |rest|];
      }
    }
    forall i, j | 0 <= i < j < |q| ensures q[i] != q[j] {
      if j < |rest| {
        assert q[i] == queue[i + 1] && q[j] == queue[j + 1];
      } else if i < |rest| {
        assert q[i] == queue[i + 1] && q[i] in nodes;
        assert q[j] == discovered[j - |rest|] && q[j] !in nodes;
      } else {
        assert q[i] == discovered[i - |rest|] && q[j] == discovered[j - |rest|];
      }
    }
  }

  lemma LayeredStep(nodes: map<int, Node>, nodes': map<int, Node>, queue: seq<int>, buttons: seq<Action>, discovered: seq<int>)
    requires Frontier(nodes, queue) && Layered(nodes, queue) && queue != []
    requires Expansion(nodes, nodes', queue[0], buttons, discovered)
    requires Frontier(nodes', queue[1..] + discovered)
    ensures Layered(nodes', queue[1..] + discovered)
  {
    var v := queue[0];
    var k := nodes[v].movesLeft;
    var rest := queue[1..];
    var q := rest + discovered;
    forall i | 0 <= i < |q| ensures k - 1 <= nodes'[q[i]].movesLeft <= k {
      if i < |rest| {
        assert q[i] == queue[i + 1];
        assert nodes'[q[i]].movesLeft == nodes[q[i]].movesLeft;
      } else {
        assert q[i] == discovered[i - |rest|];
      }
    }
    forall i, j | 0 <= i < j < |q| ensures nodes'[q[i]].movesLeft >= nodes'[q[j]].movesLeft {
      if j < |rest| {
        assert q[i] == queue[i + 1] && q[j] == queue[j + 1];
        assert nodes'[q[i]].movesLeft == nodes[q[i]].movesLeft;
        assert nodes'[q[j]].movesLeft == nodes[q[j]].movesLeft;
      } else {
        assert q[j] == discovered[j - |rest|];
      }
    }
    if q != [] {
      forall u | u in nodes' ensures nodes'[u].movesLeft >= nodes'[q[0]].movesLeft - 1 {
        if u in nodes {
          assert nodes'[u].movesLeft == nodes[u].movesLeft;
        } else {
          var i :| 0 <= i < |discovered| && discovered[i] == u;
        }
      }
    }
  }

  lemma DoneStep(nodes: map<int, Node>, nodes': map<int, Node>, queue: seq<int>, buttons: seq<Action>, discovered: seq<int>)
    requires Frontier(nodes, queue) && Layered(nodes, queue) && queue != []
    requires forall u :: u in nodes && u !in queue ==> Done(nodes, u, buttons)
    requires Expansion(nodes, nodes', queue[0], buttons, discovered)
    requires nodes[queue[0]].movesLeft > 0
    ensures forall u :: u in nodes' && u !in queue[1..] + discovered ==> Done(nodes', u, buttons)
  {
    var v := queue[0];
    var k := nodes[v].movesLeft;
    var rest := queue[1..];
    forall u | u in nodes' && u !in rest + discovered ensures Done(nodes', u, buttons) {
      if u == v {
        var es := nodes'[v].edges;
        forall i | 0 <= i < |es| ensures es[i].dest in nodes' && nodes'[es[i].dest].movesLeft >= k - 1 {
          var d := es[i].dest;
          if d in nodes {
            assert nodes'[d].movesLeft == nodes[d].movesLeft;
          } else {
            var x :| 0 <= x < |discovered| && discovered[x] == d;
          }
        }
      } else {
        assert u !in discovered by {
          assert forall x :: x in discovered ==> x in rest + discovered;
        }
        assert u !in queue by {
          forall i | 0 <= i < |queue| ensures queue[i] != u {
            if i > 0 { assert queue[i] == rest[i - 1]; assert u !in rest; }
          }
        }
        DoneExtends(nodes, nodes', u, v, buttons);
      }
    }
  }

  lemma DoneExtends(nodes: map<int, Node>, nodes': map<int, Node>, u: int, v: int, buttons: seq<Action>)
    requires u in nodes && u != v && Extends(nodes, nodes', v) && Done(nodes, u, buttons)
    ensures Done(nodes', u, buttons)
  {
    if nodes[u].movesLeft > 0 {
      EdgesForExtends(nodes, nodes', u, v, Successors(buttons, u));
    }
    var es := nodes[u].edges;
    forall i | 0 <= i < |es| ensures es[i].dest in nodes {
    }
  }

  /** The parent map with every discovered value filed under `v`. */
  ghost function Adopt(parent: map<int, int>, discovered: seq<int>, v: int): map<int, int>
  {
    parent + map u | u in discovered :: v
  }

  lemma ParentsStep(nodes: map<int, Node>, nodes': map<int, Node>, v: int, buttons: seq<Action>, discovered: seq<int>,
                    start: int, moves: int, parent: map<int, int>)
    requires start in nodes && v in nodes && nodes[v].movesLeft > 0
    requires Parents(nodes, buttons, start, moves, parent)
    requires Expansion(nodes, nodes', v, buttons, discovered)
    ensures Parents(nodes', buttons, start, moves, Adopt(parent, discovered, v))
  {
    var parent' := Adopt(parent, discovered, v);
    forall u | u in nodes' && u != start
      ensures u in parent' && parent'[u] in nodes'
      ensures Move(buttons, parent'[u], u)
      ensures nodes'[parent'[u]].movesLeft == nodes'[u].movesLeft + 1
      ensures nodes'[u].movesLeft >= 0
    {
      if u in nodes {
        assert u !in discovered by {
          forall i | 0 <= i < |discovered| ensures discovered[i] != u {
          }
        }
        assert parent'[u] == parent[u];
      } else {
        var x :| 0 <= x < |discovered| && discovered[x] == u;
        assert parent'[u] == v;
      }
    }
    forall u | u in nodes' ensures nodes'[u].movesLeft <= moves {
      if u !in nodes {
        var x :| 0 <= x < |discovered| && discovered[x] == u;
      }
    }
  }

  /** Expanding the front node keeps the loop's invariant, with the new values at the
      back of the queue and filed under the front node as their parent. */
  lemma ExpandStep(nodes: map<int, Node>, nodes': map<int, Node>, queue: seq<int>, buttons: seq<Action>,
                   discovered: seq<int>, start: int, moves: int, parent: map<int, int>)
    requires SearchState(nodes, queue, buttons, start, moves, parent)
    requires queue != [] && nodes[queue[0]].movesLeft > 0
    requires Expansion(nodes, nodes', queue[0], buttons, discovered)
    ensures SearchState(nodes', queue[1..] + discovered, buttons, start, moves, Adopt(parent, discovered, queue[0]))
  {
    FrontierStep(nodes, nodes', queue, buttons, discovered);
    LayeredStep(nodes, nodes', queue, buttons, discovered);
    DoneStep(nodes, nodes', queue, buttons, discovered);
    ParentsStep(nodes, nodes', queue[0], buttons, discovered, start, moves, parent);
    forall u | u in nodes' ensures !nodes'[u].isGoal {
      if u !in nodes {
        var x :| 0 <= x < |discovered| && discovered[x] == u;
      }
    }
  }

  /** An expansion removes the front node's weight and adds at most one level-lower
      weight per button, so the measure drops. */
  lemma WeightStep(nodes: map<int, Node>, nodes': map<int, Node>, queue: seq<int>, buttons: seq<Action>, discovered: seq<int>)
    requires Frontier(nodes, queue) && queue != [] && nodes[queue[0]].movesLeft > 0
    requires Expansion(nodes, nodes', queue[0], buttons, discovered)
    requires |discovered| <= |buttons|
    ensures forall i :: 0 <= i < |queue[1..] + discovered| ==> (queue[1..] + discovered)[i] in nodes'
    ensures Weight(queue[1..] + discovered, nodes', |buttons| + 1) < Weight(queue, nodes, |buttons| + 1)
  {
    var base := |buttons| + 1;
    var v := queue[0];
    var k := nodes[v].movesLeft;
    var rest := queue[1..];
    forall i | 0 <= i < |rest| ensures rest[i] in nodes && rest[i] in nodes' {
      assert rest[i] == queue[i + 1];
    }
    forall i | 0 <= i < |rest| ensures nodes[rest[i]].movesLeft == nodes'[rest[i]].movesLeft {
      assert rest[i] == queue[i + 1];
    }
    WeightFrame(rest, nodes, nodes', base);
    WeightLevel(discovered, nodes', base, k - 1);
    WeightAppend(rest, discovered, nodes', base);
    var lower := Budget(base, k - 1);
    BudgetStep(base, k);
    assert Budget(base, k) == |buttons| * lower + lower;
    assert |discovered| * lower <= |buttons| * lower by {
      MulMonotone(|discovered|, |buttons|, lower);
    }
  }

  /** One level more multiplies the budget by the base. */
  lemma BudgetStep(base: nat, k: int)
    requires base >= 1 && k >= 1
    ensures Budget(base, k) == base * Budget(base, k - 1)
  {
    if k - 1 > 0 {
      assert Pow(base, k) == base * Pow(base, k - 1);
    } else {
      assert Pow(base, 1) == base * Pow(base, 0);
    }
  }

  lemma MulMonotone(a: nat, b: nat, c: nat)
    requires a <= b
    ensures a * c <= b * c
  {
  }

  /** Appending the nodes one level below the front keeps the node list in
      non-increasing order of moves left. */
  lemma DescendStep(list0: seq<int>, nodes0: map<int, Node>, nodes': map<int, Node>, discovered: seq<int>, v: int, k: int)
    requires AllIn(list0, nodes0) && LevelsDescend(list0, nodes0)
    requires forall u :: u in nodes0 ==> nodes0[u].movesLeft >= k - 1
    requires Extends(nodes0, nodes', v) && NewNodes(nodes0, nodes', discovered, k)
    ensures LevelsDescend(list0 + discovered, nodes')
  {
    var list := list0 + discovered;
    forall i | 0 <= i < |list| ensures list[i] in nodes' && k - 1 <= nodes'[list[i]].movesLeft {
      if i < |list0| {
        assert list[i] == list0[i] && list0[i] in list0;
      } else {
        assert list[i] == discovered[i - |list0|];
      }
    }
    forall i, j | 0 <= i < j < |list| ensures nodes'[list[i]].movesLeft >= nodes'[list[j]].movesLeft {
      if j < |list0| {
        assert list[i] == list0[i] && list[j] == list0[j];
        assert nodes0[list0[i]].movesLeft >= nodes0[list0[j]].movesLeft;
      } else {
        assert list[j] == discovered[j - |list0|];
      }
    }
  }

  /** The values `Expand` adds to the node list are pairwise distinct, the list being
      so. */
  lemma TailDistinct(list0: seq<int>, discovered: seq<int>, nodes: map<int, Node>, buckets: seq<Bucket>)
    requires Consistent(list0 + discovered, nodes, buckets)
    ensures forall i, j :: 0 <= i < j < |discovered| ==> discovered[i] != discovered[j]
  {
    var list := list0 + discovered;
    forall i, j | 0 <= i < j < |discovered| ensures discovered[i] != discovered[j] {
      assert list[|list0| + i] == discovered[i] && list[|list0| + j] == discovered[j];
    }
  }

  /** Every node of the finished graph is reached from the start by exactly as many
      presses as its budget dropped. */
  lemma Sound(nodes: map<int, Node>, buttons: seq<Action>, start: int, moves: int, parent: map<int, int>, u: int)
    requires start in nodes && nodes[start].movesLeft == moves
    requires Parents(nodes, buttons, start, moves, parent)
    requires u in nodes
    ensures Reaches(buttons, start, u, moves - nodes[u].movesLeft)
    decreases moves - nodes[u].movesLeft
  {
    if u != start {
      var p := parent[u];
      var n := moves - nodes[p].movesLeft;
      assert nodes[p].movesLeft == nodes[u].movesLeft + 1 && n >= 0;
      Sound(nodes, buttons, start, moves, parent, p);
      ReachesStep(buttons, start, p, u, n);
    }
  }

  lemma ReachesStep(buttons: seq<Action>, a: int, p: int, w: int, n: nat)
    requires Reaches(buttons, a, p, n) && Move(buttons, p, w)
    ensures Reaches(buttons, a, w, n + 1)
  {
  }

  /** Every value reached from the start within the budget is a node of the finished
      graph, with at least the budget left over. */
  lemma {:induction false} Complete(nodes: map<int, Node>, buttons: seq<Action>, start: int, moves: int, w: int, n: nat)
    requires start in nodes && nodes[start].movesLeft == moves
    requires forall u :: u in nodes ==> Done(nodes, u, buttons)
    requires n <= moves && Reaches(buttons, start, w, n)
    ensures w in nodes && nodes[w].movesLeft >= moves - n
    decreases n
  {
    if n > 0 {
      var p :| Reaches(buttons, start, p, n - 1) && Move(buttons, p, w);
      Complete(nodes, buttons, start, moves, p, n - 1);
      assert Done(nodes, p, buttons);
      MoveIsSuccessor(buttons, p, w);
      var results := Successors(buttons, p);
      var i :| 0 <= i < |results| && results[i].0 == w;
      assert nodes[p].edges[i].dest == w;
    }
  }

  lemma AllSound(nodes: map<int, Node>, buttons: seq<Action>, start: int, moves: int, parent: map<int, int>)
    requires start in nodes && nodes[start].movesLeft == moves
    requires Parents(nodes, buttons, start, moves, parent)
    ensures forall u :: u in nodes ==>
              nodes[u].movesLeft <= moves && Reaches(buttons, start, u, moves - nodes[u].movesLeft)
  {
    forall u | u in nodes
      ensures nodes[u].movesLeft <= moves && Reaches(buttons, start, u, moves - nodes[u].movesLeft)
    {
      Sound(nodes, buttons, start, moves, parent, u);
    }
  }

  lemma AllComplete(nodes: map<int, Node>, buttons: seq<Action>, start: int, moves: int)
    requires start in nodes && nodes[start].movesLeft == moves
    requires forall u :: u in nodes ==> Done(nodes, u, buttons)
    ensures forall w, n: nat :: n <= moves && Reaches(buttons, start, w, n) ==>
              w in nodes && nodes[w].movesLeft >= moves - n
  {
    forall w, n: nat | n <= moves && Reaches(buttons, start, w, n)
      ensures w in nodes && nodes[w].movesLeft >= moves - n
    {
      Complete(nodes, buttons, start, moves, w, n);
    }
  }

  /** What the finished search guarantees about its node map, goal flags aside. */
  ghost predicate Explored(nodes: map<int, Node>, buttons: seq<Action>, start: int, moves: int)
  {
    && start in nodes && nodes[start].movesLeft == moves
    && (forall u :: u in nodes ==> Done(nodes, u, buttons))
    && (forall u :: u in nodes ==>
          nodes[u].movesLeft <= moves && Reaches(buttons, start, u, moves - nodes[u].movesLeft))
    && (forall u :: u in nodes && u != start ==> nodes[u].movesLeft >= 0)
    && (forall w, n: nat :: n <= moves && Reaches(buttons, start, w, n) ==>
          w in nodes && nodes[w].movesLeft >= moves - n)
  }

  /** Changing only goal flags keeps what the search guarantees. */
  lemma ExploredRelabel(nodes: map<int, Node>, nodes': map<int, Node>, buttons: seq<Action>, start: int, moves: int)
    requires Explored(nodes, buttons, start, moves)
    requires forall u :: u in nodes' <==> u in nodes
    requires forall u :: u in nodes ==>
               nodes'[u].movesLeft == nodes[u].movesLeft && nodes'[u].edges == nodes[u].edges
    ensures Explored(nodes', buttons, start, moves)
  {
    forall u | u in nodes' ensures Done(nodes', u, buttons) {
      assert Done(nodes, u, buttons);
      var es := nodes[u].edges;
      forall i | 0 <= i < |es| ensures es[i].dest in nodes {
      }
    }
  }

  /** `breadth_first_search(start_node, operations)` for a fresh start node with value
      `start` and budget `moves`: the graph of everything reached, each node expanded
      once and its moves-left count the budget minus its distance from the start. */
  method BreadthFirstSearch(start: int, moves: int, buttons: seq<Action>) returns (g: Graph)
    ensures fresh(g) && g.Valid() && g.startValue == start
    ensures start in g.nodeMap && g.nodeMap[start].movesLeft == moves
    ensures forall u :: u in g.nodeMap ==> Done(g.nodeMap, u, buttons) && !g.nodeMap[u].isGoal
    ensures forall u :: u in g.nodeMap ==>
              g.nodeMap[u].movesLeft <= moves && Reaches(buttons, start, u, moves - g.nodeMap[u].movesLeft)
    ensures forall u :: u in g.nodeMap && u != start ==> g.nodeMap[u].movesLeft >= 0
    ensures forall w, n: nat :: n <= moves && Reaches(buttons, start, w, n) ==>
              w in g.nodeMap && g.nodeMap[w].movesLeft >= moves - n
    ensures g.nodeList != [] && g.nodeList[0] == start
    ensures LevelsDescend(g.nodeList, g.nodeMap)
  {
    g := new Graph(NewNode(start, moves));
    var queue := [start];
    ghost var parent: map<int, int> := map[];
    SearchStarts(start, moves, buttons);
    while queue != []
      invariant g.Valid() && g.startValue == start
      invariant SearchState(g.nodeMap, queue, buttons, start, moves, parent)
      invariant g.nodeList != [] && g.nodeList[0] == start
      invariant LevelsDescend(g.nodeList, g.nodeMap)
      decreases Weight(queue, g.nodeMap, |buttons| + 1)
    {
      var v := queue[0];
      var node := g.GetNode(v);
      if node.value.movesLeft <= 0 {
        SkipStep(g.nodeMap, queue, buttons, start, moves, parent);
        queue := queue[1..];
      } else {
        ghost var nodes0 := g.nodeMap;
        ghost var list0 := g.nodeList;
        var discovered := Expand(g, v, buttons);
        TailDistinct(list0, discovered, g.nodeMap, g.nodesByMoves);
        DescendStep(list0, nodes0, g.nodeMap, discovered, v, nodes0[v].movesLeft);
        ExpandStep(nodes0, g.nodeMap, queue, buttons, discovered, start, moves, parent);
        WeightStep(nodes0, g.nodeMap, queue, buttons, discovered);
        parent := Adopt(parent, discovered, v);
        queue := queue[1..] + discovered;
      }
    }
    AllSound(g.nodeMap, buttons, start, moves, parent);
    AllComplete(g.nodeMap, buttons, start, moves);
  }
}
