/**
 * `do_it` of solver.js without its page: the operation text is compiled into
 * buttons, the graph of values reachable within the move budget is searched, the goal
 * value is marked if it was reached, and the solution tree and the export data are
 * read off the graph.
 */
module Solver {
  import opened Wrappers
  import opened Operations
  import opened Grammar
  import opened Graphs
  import opened Search
  import opened BreadthFirst
  import opened Views

  /** A compiled button as the search uses it: its text and its transform. */
  function ToAction(b: Button): (a: Action)
    ensures a.text == b.text
    ensures forall v :: a.exec(v) == Apply(b.op, v)
  {
    Action(b.text, v => Apply(b.op, v))
  }

  function Actions(bs: seq<Button>): (r: seq<Action>)
    ensures |r| == |bs|
    ensures forall i :: 0 <= i < |bs| ==> r[i] == ToAction(bs[i])
  {
    if bs == [] then [] else [ToAction(bs[0])] + Actions(bs[1..])
  }

  /** One press of the compiled buttons takes `u` to `w` exactly when some button's
      operation, applied to `u`, gives the integer `w`. */
  lemma MoveIsApply(bs: seq<Button>, u: int, w: int)
    ensures Move(Actions(bs), u, w) <==> exists i :: 0 <= i < |bs| && Apply(bs[i].op, u) == Some(w)
  {
    var acts := Actions(bs);
    if Move(acts, u, w) {
      var i :| 0 <= i < |acts| && acts[i].exec(u) == Some(w);
      assert Apply(bs[i].op, u) == Some(w);
    }
    if exists i :: 0 <= i < |bs| && Apply(bs[i].op, u) == Some(w) {
      var i :| 0 <= i < |bs| && Apply(bs[i].op, u) == Some(w);
      assert acts[i].exec(u) == Some(w);
    }
  }

  /** In a searched graph, forward edges go exactly one level down, never below zero,
      so the tree of forward edges is finite. */
  lemma ExploredDescending(nodes: map<int, Node>, buttons: seq<Action>, start: int, moves: int)
    requires Explored(nodes, buttons, start, moves)
    ensures Descending(nodes)
    ensures forall u, e :: u in nodes && e in nodes[u].edges && e.isForward ==>
              e.dest in nodes && nodes[e.dest].movesLeft == nodes[u].movesLeft - 1
  {
    forall u, e | u in nodes && e in nodes[u].edges && e.isForward
      ensures e.dest in nodes && 0 <= nodes[e.dest].movesLeft == nodes[u].movesLeft - 1
    {
      assert Done(nodes, u, buttons);
      var i :| 0 <= i < |nodes[u].edges| && nodes[u].edges[i] == e;
    }
  }

  /** Every node of a searched graph is reached from the start along forward edges. */
  lemma ForwardReachable(nodes: map<int, Node>, buttons: seq<Action>, start: int, moves: int, u: int)
    returns (path: seq<Edge>)
    requires Explored(nodes, buttons, start, moves)
    requires u in nodes
    ensures ForwardPath(nodes, start, path, u)
    decreases moves - nodes[u].movesLeft
  {
    var n: nat := moves - nodes[u].movesLeft;
    assert Reaches(buttons, start, u, n);
    if n == 0 {
      path := [];
    } else {
      var p :| Reaches(buttons, start, p, n - 1) && Move(buttons, p, u);
      assert p in nodes && nodes[p].movesLeft >= moves - (n - 1);
      assert Done(nodes, p, buttons);
      MoveIsSuccessor(buttons, p, u);
      var results := Successors(buttons, p);
      var i :| 0 <= i < |results| && results[i].0 == u;
      var e := nodes[p].edges[i];
      assert e.dest == u && nodes[u].movesLeft >= nodes[p].movesLeft - 1;
      var pre := ForwardReachable(nodes, buttons, start, moves, p);
      ForwardPathSnoc(nodes, start, pre, p, e);
      path := pre + [e];
    }
  }

  /** `goal` is reached from `start` by at most `moves` presses; the start itself
      counts whatever the budget. */
  ghost predicate ReachableWithin(buttons: seq<Action>, start: int, goal: int, moves: int)
  {
    exists n: nat :: (n == 0 || n <= moves) && Reaches(buttons, start, goal, n)
  }

  /** The goal value is a node of the searched graph exactly when it is reachable from
      the start within the budget. */
  lemma GoalFound(nodes: map<int, Node>, buttons: seq<Action>, start: int, moves: int, goal: int)
    requires Explored(nodes, buttons, start, moves)
    ensures goal in nodes <==> ReachableWithin(buttons, start, goal, moves)
  {
    if goal in nodes {
      var n: nat := moves - nodes[goal].movesLeft;
      assert (n == 0 || n <= moves) && Reaches(buttons, start, goal, n);
    }
    if ReachableWithin(buttons, start, goal, moves) {
      var n: nat :| (n == 0 || n <= moves) && Reaches(buttons, start, goal, n);
      if n == 0 {
        assert goal == start;
      }
    }
  }

  /** Goal marking: the nodes of a search, none a goal, with the goal value's node (if
      any) marked, have exactly that node as their goal. */
  lemma MarkedOnce(before: map<int, Node>, after: map<int, Node>, goal: int)
    requires forall u :: u in before ==> !before[u].isGoal
    requires goal in before ==> after == before[goal := before[goal].(isGoal := true)]
    requires goal !in before ==> after == before
    ensures forall u :: u in after <==> u in before
    ensures forall u :: u in after ==> (after[u].isGoal <==> u == goal)
    ensures forall u :: u in after ==>
              after[u].movesLeft == before[u].movesLeft && after[u].edges == before[u].edges
  {
  }

  /** The root of the solution tree of a searched graph whose only goal is the goal
      value is a goal exactly when the goal value is reachable within the budget. */
  lemma TreeGoal(nodes: map<int, Node>, buttons: seq<Action>, start: int, moves: int, goal: int)
    requires Explored(nodes, buttons, start, moves)
    requires forall u :: u in nodes ==> (nodes[u].isGoal <==> u == goal)
    ensures Descending(nodes)
    ensures SolutionTree(nodes, start).goal <==> ReachableWithin(buttons, start, goal, moves)
  {
    ExploredDescending(nodes, buttons, start, moves);
    GoalFound(nodes, buttons, start, moves, goal);
    if goal in nodes {
      var path := ForwardReachable(nodes, buttons, start, moves, goal);
    }
    TreeMarksGoal(nodes, start, goal);
  }

  /** When the goal value, if it is a node, is reached from the start along forward
      edges, the root of the tree is a goal exactly when the goal value is a node. */
  lemma TreeMarksGoal(nodes: map<int, Node>, start: int, goal: int)
    requires Descending(nodes) && start in nodes
    requires forall u :: u in nodes ==> (nodes[u].isGoal <==> u == goal)
    requires goal in nodes ==> exists path :: ForwardPath(nodes, start, path, goal)
    ensures SolutionTree(nodes, start).goal <==> goal in nodes
  {
    SubtreeGoal(nodes, start, "");
    if SolutionTree(nodes, start).goal {
      var path, w :| ForwardPath(nodes, start, path, w) && GoalAt(nodes, w);
      assert w == goal;
    }
    if goal in nodes {
      var path :| ForwardPath(nodes, start, path, goal);
      assert GoalAt(nodes, goal);
    }
  }

  /** Goal marking keeps the node list in non-increasing order of moves left, so the
      level groups, met in node-list order, start at the budget and strictly
      decrease. */
  lemma LevelsAfterMarking(list: seq<int>, before: map<int, Node>, after: map<int, Node>, buckets: seq<Bucket>,
                           start: int, moves: int)
    requires Consistent(list, after, buckets)
    requires LevelsDescend(list, before) && list != [] && list[0] == start
    requires start in after && after[start].movesLeft == moves
    requires forall u :: u in before ==> u in after && after[u].movesLeft == before[u].movesLeft
    ensures LevelsDescend(list, after)
    ensures buckets != [] && buckets[0].moves == moves
    ensures forall i, j :: 0 <= i < j < |buckets| ==> buckets[i].moves > buckets[j].moves
  {
    LevelsDescendFrame(list, before, after);
    assert AllIn(list, after);
    GroupsDescend(buckets, list, after);
  }

  /** What marking the goal in a searched graph leaves: the search's guarantees, the
      goal as the only goal node, a finite tree that is a goal exactly when the goal is
      reachable within the budget, and the level order of the node list and groups. */
  lemma GoalMarked(before: map<int, Node>, after: map<int, Node>, list: seq<int>, buckets: seq<Bucket>,
                   buttons: seq<Action>, start: int, moves: int, goal: int)
    requires Explored(before, buttons, start, moves)
    requires forall u :: u in before ==> !before[u].isGoal
    requires goal in before ==> after == before[goal := before[goal].(isGoal := true)]
    requires goal !in before ==> after == before
    requires Consistent(list, after, buckets)
    requires LevelsDescend(list, before) && list != [] && list[0] == start
    ensures Explored(after, buttons, start, moves)
    ensures goal in after <==> ReachableWithin(buttons, start, goal, moves)
    ensures forall u :: u in after ==> (after[u].isGoal <==> u == goal)
    ensures Descending(after) && start in after
    ensures SolutionTree(after, start).goal <==> ReachableWithin(buttons, start, goal, moves)
    ensures LevelsDescend(list, after)
    ensures buckets != [] && buckets[0].moves == moves
    ensures forall i, j :: 0 <= i < j < |buckets| ==> buckets[i].moves > buckets[j].moves
  {
    GoalFound(before, buttons, start, moves, goal);
    MarkedOnce(before, after, goal);
    ExploredRelabel(before, after, buttons, start, moves);
    TreeGoal(after, buttons, start, moves, goal);
    LevelsAfterMarking(list, before, after, buckets, start, moves);
  }

  /** `do_it` on input text `input`, start value `start`, move budget `moves` and goal
      value `goal`: the searched graph with the goal marked, its solution tree, and the
      forward edges and level groups of its export. The tree is marked as a goal
      exactly when the goal can be reached from the start within the budget, and the
      ranks come in the order in which their counts first occur in the node list. */
  method Solve(input: string, start: int, moves: int, goal: int)
    returns (g: Graph, tree: Tree, edges: seq<(int, int, string)>, ranks: seq<seq<int>>)
    ensures g.Valid() && g.startValue == start
    ensures Explored(g.nodeMap, Actions(ParseOperations(input)), start, moves)
    ensures goal in g.nodeMap <==> ReachableWithin(Actions(ParseOperations(input)), start, goal, moves)
    ensures forall u :: u in g.nodeMap ==> (g.nodeMap[u].isGoal <==> u == goal)
    ensures Descending(g.nodeMap) && start in g.nodeMap
    ensures tree == SolutionTree(g.nodeMap, start)
    ensures tree.goal <==> ReachableWithin(Actions(ParseOperations(input)), start, goal, moves)
    ensures AllIn(g.nodeList, g.nodeMap)
    ensures edges == ForwardEdges(g.nodeList, g.nodeMap)
    ensures ranks == Ranks(g.nodesByMoves)
    ensures forall i :: 0 <= i < |ranks| ==>
              ranks[i] != [] && FirstAt(g.nodeList, g.nodeMap, g.nodesByMoves[i].moves) < |g.nodeList| &&
              ranks[i][0] == g.nodeList[FirstAt(g.nodeList, g.nodeMap, g.nodesByMoves[i].moves)]
    ensures forall i, j :: 0 <= i < j < |ranks| ==>
              FirstAt(g.nodeList, g.nodeMap, g.nodesByMoves[i].moves) <
              FirstAt(g.nodeList, g.nodeMap, g.nodesByMoves[j].moves)
    ensures g.nodeList != [] && g.nodeList[0] == start
    ensures LevelsDescend(g.nodeList, g.nodeMap)
    ensures g.nodesByMoves != [] && g.nodesByMoves[0].moves == moves
    ensures forall i, j :: 0 <= i < j < |g.nodesByMoves| ==> g.nodesByMoves[i].moves > g.nodesByMoves[j].moves
  {
    var buttons := Actions(ParseOperations(input));
    g := BreadthFirstSearch(start, moves, buttons);
    ghost var searched := g.nodeMap;
    g.MarkGoal(goal);
    GoalMarked(searched, g.nodeMap, g.nodeList, g.nodesByMoves, buttons, start, moves, goal);
    tree := SolutionTree(g.nodeMap, start);
    edges := DotEdges(g);
    ranks := DotRanks(g);
    RanksInOrder(g.nodesByMoves, g.nodeList, g.nodeMap);
  }
}
