/**
 * `breadth_first_search` of solver.js: starting from one node, every button is applied
 * to every node that still has moves left, in first-in first-out order; a result that
 * is not an integer is ignored, a value seen for the first time becomes a node with one
 * move fewer, and every integer result becomes an edge of the node it came from.
 */
module Search {
  import opened Wrappers
  import opened Graphs

  /** What the search uses of a button: its text, which labels edges, and its
      transform, `None` where the result is not an integer. */
  datatype Action = Action(text: string, exec: int -> Option<int>)

  /** What one button does to `v`: its result with the button's label, or nothing when
      the result is not an integer. */
  function Step(b: Action, v: int): seq<(int, string)>
  {
    match b.exec(v)
    case Some(w) => [(w, b.text)]
    case None => []
  }

  /** The results of the buttons on `v`, in button order, labelled. */
  function Successors(buttons: seq<Action>, v: int): seq<(int, string)>
  {
    if buttons == [] then []
    else Successors(buttons[..|buttons| - 1], v) + Step(buttons[|buttons| - 1], v)
  }

  /** Some button takes `u` to `w`. */
  ghost predicate Move(buttons: seq<Action>, u: int, w: int)
  {
    exists i :: 0 <= i < |buttons| && buttons[i].exec(u) == Some(w)
  }

  /** Every listed result is the result of some button... */
  lemma {:induction false} SuccessorIsMove(buttons: seq<Action>, u: int, i: nat)
    requires i < |Successors(buttons, u)|
    ensures Move(buttons, u, Successors(buttons, u)[i].0)
  {
    var pre := buttons[..|buttons| - 1];
    var p := Successors(pre, u);
    var w := Successors(buttons, u)[i].0;
    if i < |p| {
      SuccessorIsMove(pre, u, i);
      var k :| 0 <= k < |pre| && pre[k].exec(u) == Some(w);
      assert buttons[k] == pre[k];
    } else {
      assert buttons[|pre|].exec(u) == Some(w);
    }
  }

  /** ...and every integer result of a button is listed. */
  lemma {:induction false} MoveIsSuccessor(buttons: seq<Action>, u: int, w: int)
    requires Move(buttons, u, w)
    ensures exists i :: 0 <= i < |Successors(buttons, u)| && Successors(buttons, u)[i].0 == w
  {
    var pre := buttons[..|buttons| - 1];
    var p := Successors(pre, u);
    var s := Successors(buttons, u);
    var i :| 0 <= i < |buttons| && buttons[i].exec(u) == Some(w);
    if i < |pre| {
      assert pre[i] == buttons[i];
      MoveIsSuccessor(pre, u, w);
      var k :| 0 <= k < |p| && p[k].0 == w;
      assert s[k] == p[k];
    } else {
      assert s[|p|].0 == w;
    }
  }

  /** The values of `results` that are not `known`, each once, in the order of their
      first occurrence: what one expansion adds to the node list and the queue. */
  function NewValues(results: seq<(int, string)>, known: set<int>): (r: seq<int>)
    ensures |r| <= |results|
  {
    if results == [] then []
    else
      var pre := results[..|results| - 1];
      var w := results[|results| - 1].0;
      var r := NewValues(pre, known);
      if w in known || w in r then r else r + [w]
  }

  /** The new values are distinct, and they are exactly the results that are not
      known. */
  lemma {:induction false} NewValuesMembers(results: seq<(int, string)>, known: set<int>)
    ensures var r := NewValues(results, known);
            && (forall i, j :: 0 <= i < j < |r| ==> r[i] != r[j])
            && (forall u :: u in r <==> u !in known && exists i :: 0 <= i < |results| && results[i].0 == u)
  {
    if results != [] {
      var pre := results[..|results| - 1];
      var w := results[|results| - 1].0;
      NewValuesMembers(pre, known);
      assert forall i :: 0 <= i < |pre| ==> pre[i] == results[i];
    }
  }

  lemma NewValuesSnoc(pre: seq<(int, string)>, x: (int, string), known: set<int>)
    ensures NewValues(pre + [x], known) ==
            var r := NewValues(pre, known); if x.0 in known || x.0 in r then r else r + [x.0]
  {
    assert (pre + [x])[..|pre|] == pre;
  }

  /** The position of the first result with value `u`, or `|results|` when there is
      none. */
  function FirstIndex(results: seq<(int, string)>, u: int): (r: nat)
    ensures r <= |results|
    ensures r < |results| ==> results[r].0 == u
    ensures forall i :: 0 <= i < r ==> results[i].0 != u
  {
    if results == [] then 0
    else if results[0].0 == u then 0
    else 1 + FirstIndex(results[1..], u)
  }

  /** The values of `r` come in the order of their first positions in `results`. */
  predicate InResultOrder(r: seq<int>, results: seq<(int, string)>)
  {
    forall i, j :: 0 <= i < j < |r| ==> FirstIndex(results, r[i]) < FirstIndex(results, r[j])
  }

  /** The new values come in the order in which they first occur among the results. */
  lemma {:induction false} NewValuesInOrder(results: seq<(int, string)>, known: set<int>)
    ensures InResultOrder(NewValues(results, known), results)
  {
    if results != [] {
      var pre, x := results[..|results| - 1], results[|results| - 1];
      assert results == pre + [x];
      NewValuesInOrder(pre, known);
      NewValuesInOrderSnoc(pre, x, known);
    }
  }

  lemma NewValuesInOrderSnoc(pre: seq<(int, string)>, x: (int, string), known: set<int>)
    requires InResultOrder(NewValues(pre, known), pre)
    ensures InResultOrder(NewValues(pre + [x], known), pre + [x])
  {
    var rp := NewValues(pre, known);
    NewValuesMembers(pre, known);
    assert (pre + [x])[..|pre|] == pre;
    assert NewValues(pre + [x], known) == if x.0 in known || x.0 in rp then rp else rp + [x.0];
    OrderKeptSnoc(rp, pre, x);
    if !(x.0 in known || x.0 in rp) {
      assert forall i :: 0 <= i < |pre| ==> pre[i].0 != x.0;
      FirstIndexSnoc(pre, x, x.0);
      FirstIndexAbsent(pre, x.0);
      OrderSnoc(rp, x.0, pre + [x], |pre|);
    }
  }

  /** One more result leaves the first positions of values already present. */
  lemma OrderKeptSnoc(rp: seq<int>, pre: seq<(int, string)>, x: (int, string))
    requires forall u :: u in rp ==> exists i :: 0 <= i < |pre| && pre[i].0 == u
    requires InResultOrder(rp, pre)
    ensures InResultOrder(rp, pre + [x])
    ensures forall u :: u in rp ==> FirstIndex(pre + [x], u) < |pre|
  {
    forall u | u in rp ensures FirstIndex(pre + [x], u) == FirstIndex(pre, u) < |pre| {
      FirstIndexSnoc(pre, x, u);
    }
    forall i, j | 0 <= i < j < |rp| ensures FirstIndex(pre + [x], rp[i]) < FirstIndex(pre + [x], rp[j]) {
      assert rp[i] in rp && rp[j] in rp;
    }
  }

  /** Appending a value whose first position lies past those of the others keeps the
      order of first positions. */
  lemma OrderSnoc(rp: seq<int>, w: int, results: seq<(int, string)>, n: nat)
    requires InResultOrder(rp, results)
    requires forall u :: u in rp ==> FirstIndex(results, u) < n
    requires FirstIndex(results, w) == n
    ensures InResultOrder(rp + [w], results)
  {
    var r := rp + [w];
    forall i, j | 0 <= i < j < |r| ensures FirstIndex(results, r[i]) < FirstIndex(results, r[j]) {
      assert r[i] == rp[i] && rp[i] in rp;
      if j < |rp| {
        assert r[j] == rp[j];
      }
    }
  }

  lemma {:induction false} FirstIndexSnoc(pre: seq<(int, string)>, x: (int, string), u: int)
    ensures FirstIndex(pre + [x], u) ==
            if FirstIndex(pre, u) < |pre| then FirstIndex(pre, u) else |pre| + (if x.0 == u then 0 else 1)
  {
    if pre != [] {
      assert (pre + [x])[1..] == pre[1..] + [x];
      FirstIndexSnoc(pre[1..], x, u);
    }
  }

  /** A value that is no result has no first position. */
  lemma FirstIndexAbsent(results: seq<(int, string)>, u: int)
    requires forall i :: 0 <= i < |results| ==> results[i].0 != u
    ensures FirstIndex(results, u) == |results|
  {
  }

  /** The edges of node `u` are one per listed result, same value, same label, each
      leading to a node of the graph and forward exactly when that node has fewer
      moves left than `u`. */
  ghost predicate EdgesFor(nodes: map<int, Node>, u: int, results: seq<(int, string)>)
    requires u in nodes
  {
    var es := nodes[u].edges;
    && |es| == |results|
    && forall i :: 0 <= i < |es| ==>
         && es[i].dest == results[i].0
         && es[i].text == results[i].1
         && es[i].dest in nodes
         && es[i].isForward == (nodes[es[i].dest].movesLeft < nodes[u].movesLeft)
  }

  /** A node whose turn has come: with no moves left it has no edges, otherwise it has
      one edge per integer result of the buttons, in button order. */
  ghost predicate Expanded(nodes: map<int, Node>, u: int, buttons: seq<Action>)
    requires u in nodes
  {
    if nodes[u].movesLeft <= 0 then nodes[u].edges == []
    else EdgesFor(nodes, u, Successors(buttons, u))
  }

  /** `nodes'` extends `nodes`: nothing removed, no value, moves-left count or goal
      flag changed, and only the node `v` may have gained edges. */
  ghost predicate Extends(nodes: map<int, Node>, nodes': map<int, Node>, v: int)
  {
    forall u :: u in nodes ==>
      && u in nodes'
      && nodes'[u].value == nodes[u].value
      && nodes'[u].movesLeft == nodes[u].movesLeft
      && nodes'[u].isGoal == nodes[u].isGoal
      && (u != v ==> nodes'[u].edges == nodes[u].edges)
  }

  lemma ExtendsTrans(n0: map<int, Node>, n1: map<int, Node>, n2: map<int, Node>, v: int)
    requires Extends(n0, n1, v) && Extends(n1, n2, v)
    ensures Extends(n0, n2, v)
  {
  }

  /** Pushing the edge for one more result onto `v` keeps its edges in step with the
      results. */
  lemma EdgesForPush(nodes: map<int, Node>, nodes': map<int, Node>, v: int, results: seq<(int, string)>, w: int, text: string)
    requires v in nodes && EdgesFor(nodes, v, results) && Extends(nodes, nodes', v)
    requires w in nodes'
    requires nodes'[v].edges == nodes[v].edges + [Edge(w, text, nodes'[w].movesLeft < nodes[v].movesLeft)]
    ensures EdgesFor(nodes', v, results + [(w, text)])
  {
    var es := nodes[v].edges;
    forall i | 0 <= i < |es| ensures es[i].dest in nodes {
    }
  }

  /** The nodes `discovered` during one expansion: new, with one move fewer than `k`,
      no edges, not the goal. */
  ghost predicate NewNodes(nodes0: map<int, Node>, nodes: map<int, Node>, discovered: seq<int>, k: int)
  {
    forall i :: 0 <= i < |discovered| ==>
      && discovered[i] !in nodes0 && discovered[i] in nodes
      && nodes[discovered[i]].movesLeft == k - 1
      && nodes[discovered[i]].edges == []
      && !nodes[discovered[i]].isGoal
  }

  lemma NewNodesExtends(nodes0: map<int, Node>, n1: map<int, Node>, n2: map<int, Node>, discovered: seq<int>, k: int, v: int)
    requires v in nodes0 && NewNodes(nodes0, n1, discovered, k) && Extends(n1, n2, v)
    ensures NewNodes(nodes0, n2, discovered, k)
  {
    forall i | 0 <= i < |discovered|
      ensures discovered[i] in n2 && n2[discovered[i]] == n1[discovered[i]]
    {
      assert discovered[i] != v;
    }
  }

  lemma NewNodesSnoc(nodes0: map<int, Node>, nodes: map<int, Node>, discovered: seq<int>, k: int, w: int)
    requires NewNodes(nodes0, nodes, discovered, k)
    requires w !in nodes0 && w in nodes && nodes[w] == NewNode(w, k - 1)
    ensures NewNodes(nodes0, nodes, discovered + [w], k)
  {
  }

  /** One button's integer result `w` for the node `v`: a new value becomes a node with
      one move fewer, and `v` gains an edge to `w`, forward when `w`'s node has fewer
      moves left. */
  method Record(g: Graph, v: int, w: int, text: string) returns (isNew: bool)
    requires g.Valid() && v in g.nodeMap
    modifies g
    ensures g.Valid() && g.startValue == old(g.startValue)
    ensures Extends(old(g.nodeMap), g.nodeMap, v)
    ensures isNew <==> w !in old(g.nodeMap)
    ensures w in g.nodeMap && v in g.nodeMap
    ensures g.nodeMap[v].edges == old(g.nodeMap)[v].edges + [Edge(w, text, g.nodeMap[w].movesLeft < old(g.nodeMap)[v].movesLeft)]
    ensures isNew ==> g.nodeList == old(g.nodeList) + [w] && g.nodeMap[w] == NewNode(w, old(g.nodeMap)[v].movesLeft - 1)
    ensures !isNew ==> g.nodeList == old(g.nodeList)
    ensures forall u :: u in g.nodeMap <==> u in old(g.nodeMap) || u == w
  {
    ghost var m0 := g.nodeMap;
    var k := g.nodeMap[v].movesLeft;
    var existing := g.GetNode(w);
    isNew := existing.None?;
    if isNew {
      var _ := g.AddNode(NewNode(w, k - 1));
      ExtendsAdd(m0, w, NewNode(w, k - 1), v);
    } else {
      ExtendsRefl(m0, v);
    }
    ghost var m1 := g.nodeMap;
    var dest := g.GetNode(w);
    var edge := Edge(w, text, dest.value.movesLeft < k);
    g.PushEdge(v, edge);
    ExtendsPush(m1, v, edge);
    ExtendsTrans(m0, m1, g.nodeMap, v);
  }

  lemma ExtendsAdd(nodes: map<int, Node>, w: int, n: Node, v: int)
    requires w !in nodes
    ensures Extends(nodes, nodes[w := n], v)
  {
  }

  lemma ExtendsRefl(nodes: map<int, Node>, v: int)
    ensures Extends(nodes, nodes, v)
  {
  }

  lemma ExtendsPush(nodes: map<int, Node>, v: int, e: Edge)
    requires v in nodes
    ensures Extends(nodes, nodes[v := nodes[v].(edges := nodes[v].edges + [e])], v)
  {
  }

  lemma EdgesForExtends(nodes: map<int, Node>, nodes': map<int, Node>, u: int, v: int, results: seq<(int, string)>)
    requires u in nodes && u != v && Extends(nodes, nodes', v) && EdgesFor(nodes, u, results)
    ensures EdgesFor(nodes', u, results)
  {
    var es := nodes[u].edges;
    forall i | 0 <= i < |es| ensures es[i].dest in nodes {
    }
  }

  /** The state of an expansion of `v` (moves left `k`) after the first `j` buttons:
      `v` has one edge per integer result so far, the values seen for the first time
      have been added as new nodes, and nothing else has changed. */
  ghost predicate ExpandedUpTo(nodes0: map<int, Node>, list0: seq<int>, nodes: map<int, Node>, list: seq<int>,
                               v: int, k: int, buttons: seq<Action>, j: nat, discovered: seq<int>)
  {
    && j <= |buttons|
    && v in nodes0 && nodes0[v].movesLeft == k
    && Extends(nodes0, nodes, v)
    && EdgesFor(nodes, v, Successors(buttons[..j], v))
    && list == list0 + discovered
    && |discovered| <= j
    && (forall u :: u in nodes <==> u in nodes0 || u in discovered)
    && NewNodes(nodes0, nodes, discovered, k)
    && (forall u :: u in discovered ==> Move(buttons, v, u))
  }

  /** One pass of the inner loop: button `j` applied to `v`. The values discovered so
      far are the new values among the results of the first `j` buttons, in order. */
  method ApplyButton(g: Graph, v: int, k: int, buttons: seq<Action>, j: nat, discovered: seq<int>,
                     ghost nodes0: map<int, Node>, ghost list0: seq<int>) returns (discovered': seq<int>)
    requires g.Valid() && j < |buttons|
    requires ExpandedUpTo(nodes0, list0, g.nodeMap, g.nodeList, v, k, buttons, j, discovered)
    requires discovered == NewValues(Successors(buttons[..j], v), nodes0.Keys)
    modifies g
    ensures g.Valid() && g.startValue == old(g.startValue)
    ensures ExpandedUpTo(nodes0, list0, g.nodeMap, g.nodeList, v, k, buttons, j + 1, discovered')
    ensures discovered' == discovered + (if buttons[j].exec(v).Some? && buttons[j].exec(v).value !in old(g.nodeMap)
                                         then [buttons[j].exec(v).value] else [])
    ensures discovered' == NewValues(Successors(buttons[..j + 1], v), nodes0.Keys)
  {
    ghost var before, beforeList := g.nodeMap, g.nodeList;
    ghost var done := Successors(buttons[..j], v);
    SuccessorsSnoc(buttons, j, v);
    discovered' := discovered;
    var result := buttons[j].exec(v);
    if result.Some? {
      var w := result.value;
      var isNew := Record(g, v, w, buttons[j].text);
      if isNew {
        RecordNew(nodes0, list0, before, beforeList, g.nodeMap, g.nodeList, v, k, buttons, j, discovered, w);
        discovered' := discovered + [w];
      } else {
        RecordSeen(nodes0, list0, before, beforeList, g.nodeMap, v, k, buttons, j, discovered, w);
      }
    } else {
      assert Successors(buttons[..j + 1], v) == done;
    }
    NewValuesStep(done, buttons[j], v, nodes0.Keys, discovered);
    DiscoveredStep(nodes0, before, discovered, buttons[j].exec(v), discovered');
  }

  /** `Record` for a result `w` already in the graph extends the expansion's state to
      one more button, with no new value. */
  lemma RecordSeen(nodes0: map<int, Node>, list0: seq<int>, nodes: map<int, Node>, list: seq<int>,
                   nodes': map<int, Node>, v: int, k: int, buttons: seq<Action>, j: nat, discovered: seq<int>, w: int)
    requires ExpandedUpTo(nodes0, list0, nodes, list, v, k, buttons, j, discovered)
    requires j < |buttons| && buttons[j].exec(v) == Some(w) && w in nodes
    requires Extends(nodes, nodes', v) && v in nodes' && w in nodes'
    requires nodes'[v].edges == nodes[v].edges + [Edge(w, buttons[j].text, nodes'[w].movesLeft < nodes[v].movesLeft)]
    requires forall u :: u in nodes' <==> u in nodes
    ensures ExpandedUpTo(nodes0, list0, nodes', list, v, k, buttons, j + 1, discovered)
  {
    ButtonEdge(nodes0, nodes, nodes', v, buttons, j, w);
    NewNodesExtends(nodes0, nodes, nodes', discovered, k, v);
  }

  /** `Record` for a result `w` not yet in the graph extends the expansion's state to
      one more button, with `w` as the next new value. */
  lemma RecordNew(nodes0: map<int, Node>, list0: seq<int>, nodes: map<int, Node>, list: seq<int>,
                  nodes': map<int, Node>, list': seq<int>, v: int, k: int, buttons: seq<Action>, j: nat,
                  discovered: seq<int>, w: int)
    requires ExpandedUpTo(nodes0, list0, nodes, list, v, k, buttons, j, discovered)
    requires j < |buttons| && buttons[j].exec(v) == Some(w) && w !in nodes
    requires Extends(nodes, nodes', v) && v in nodes' && w in nodes'
    requires nodes'[v].edges == nodes[v].edges + [Edge(w, buttons[j].text, nodes'[w].movesLeft < nodes[v].movesLeft)]
    requires list' == list + [w] && nodes'[w] == NewNode(w, nodes[v].movesLeft - 1)
    requires forall u :: u in nodes' <==> u in nodes || u == w
    ensures ExpandedUpTo(nodes0, list0, nodes', list', v, k, buttons, j + 1, discovered + [w])
  {
    ButtonEdge(nodes0, nodes, nodes', v, buttons, j, w);
    NewNodesExtends(nodes0, nodes, nodes', discovered, k, v);
    NewNodesSnoc(nodes0, nodes', discovered, k, w);
    assert Move(buttons, v, w);
  }

  /** The edge for button `j`'s result keeps `v`'s edges in step with the first
      `j + 1` buttons. */
  lemma ButtonEdge(nodes0: map<int, Node>, nodes: map<int, Node>, nodes': map<int, Node>, v: int,
                   buttons: seq<Action>, j: nat, w: int)
    requires v in nodes && j < |buttons| && buttons[j].exec(v) == Some(w)
    requires Extends(nodes0, nodes, v) && EdgesFor(nodes, v, Successors(buttons[..j], v))
    requires Extends(nodes, nodes', v) && w in nodes'
    requires nodes'[v].edges == nodes[v].edges + [Edge(w, buttons[j].text, nodes'[w].movesLeft < nodes[v].movesLeft)]
    ensures Extends(nodes0, nodes', v) && EdgesFor(nodes', v, Successors(buttons[..j + 1], v))
  {
    SuccessorsSnoc(buttons, j, v);
    assert Step(buttons[j], v) == [(w, buttons[j].text)];
    ExtendsTrans(nodes0, nodes, nodes', v);
    EdgesForPush(nodes, nodes', v, Successors(buttons[..j], v), w, buttons[j].text);
  }

  /** The values discovered so far, and the nodes of the graph, grow as `NewValues`
      does. */
  lemma DiscoveredStep(nodes0: map<int, Node>, nodes: map<int, Node>, discovered: seq<int>,
                       result: Option<int>, discovered': seq<int>)
    requires forall u :: u in nodes <==> u in nodes0 || u in discovered
    requires discovered' == discovered + (if result.Some? && result.value !in nodes then [result.value] else [])
    ensures discovered' == discovered + (if result.Some? && result.value !in nodes0.Keys && result.value !in discovered
                                         then [result.value] else [])
  {
    if result.Some? {
      var w := result.value;
      assert w in nodes <==> w in nodes0 || w in discovered;
      assert w in nodes0 <==> w in nodes0.Keys;
    }
  }

  lemma SuccessorsSnoc(buttons: seq<Action>, j: nat, v: int)
    requires j < |buttons|
    ensures Successors(buttons[..j + 1], v) == Successors(buttons[..j], v) + Step(buttons[j], v)
  {
    assert buttons[..j + 1][..j] == buttons[..j];
  }

  /** One more button adds its result to the new values when the value is neither
      known nor already new. */
  lemma NewValuesStep(done: seq<(int, string)>, b: Action, v: int, known: set<int>, discovered: seq<int>)
    requires discovered == NewValues(done, known)
    ensures NewValues(done + Step(b, v), known) ==
            discovered + (if b.exec(v).Some? && b.exec(v).value !in known && b.exec(v).value !in discovered
                          then [b.exec(v).value] else [])
  {
    if b.exec(v).Some? {
      NewValuesSnoc(done, (b.exec(v).value, b.text), known);
    } else {
      assert done + Step(b, v) == done;
    }
  }

  /** The part of the search that handles one dequeued node `v` with moves left: each
      button in turn is applied; a new integer result becomes a node with one move
      fewer (returned in discovery order, for the queue: the new values of the results,
      in button order), and every integer result becomes an edge of `v`. */
  method Expand(g: Graph, v: int, buttons: seq<Action>) returns (discovered: seq<int>)
    requires g.Valid() && v in g.nodeMap
    requires g.nodeMap[v].movesLeft > 0 && g.nodeMap[v].edges == []
    modifies g
    ensures g.Valid() && g.startValue == old(g.startValue)
    ensures Extends(old(g.nodeMap), g.nodeMap, v)
    ensures EdgesFor(g.nodeMap, v, Successors(buttons, v))
    ensures g.nodeList == old(g.nodeList) + discovered
    ensures |discovered| <= |buttons|
    ensures forall u :: u in g.nodeMap <==> u in old(g.nodeMap) || u in discovered
    ensures NewNodes(old(g.nodeMap), g.nodeMap, discovered, old(g.nodeMap)[v].movesLeft)
    ensures forall u :: u in discovered ==> Move(buttons, v, u)
    ensures discovered == NewValues(Successors(buttons, v), old(g.nodeMap).Keys)
  {
    ghost var nodes0 := g.nodeMap;
    ghost var list0 := g.nodeList;
    var k := g.nodeMap[v].movesLeft;
    discovered := [];
    var j := 0;
    ExtendsRefl(nodes0, v);
    while j < |buttons|
      invariant g.Valid() && g.startValue == old(g.startValue)
      invariant ExpandedUpTo(nodes0, list0, g.nodeMap, g.nodeList, v, k, buttons, j, discovered)
      invariant discovered == NewValues(Successors(buttons[..j], v), nodes0.Keys)
    {
      discovered := ApplyButton(g, v, k, buttons, j, discovered, nodes0, list0);
      j := j + 1;
    }
    assert buttons[..j] == buttons;
  }
}
