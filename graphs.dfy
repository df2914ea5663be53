/**
 * The reachability graph of solver.js. A node is a reached value with the number of
 * moves still available from it, its outgoing edges and its goal flag; the graph keeps
 * its nodes in discovery order (`node_list`), by value (`node_map`) and grouped by
 * moves left (`nodes_by_moves`, an insertion-ordered map).
 *
 * Nodes are identified by their value, which `add_node` keeps unique, so the node
 * objects the source shares between `node_list`, `node_map` and `nodes_by_moves` are
 * held once, in `nodeMap`; the list and the groups hold values.
 */
module Graphs {
  import opened Wrappers

  /** `Edge`: destination value, its label (the text of the button that produced it), and whether
      it leads to a node discovered later (fewer moves left). */
  datatype Edge = Edge(dest: int, text: string, isForward: bool)

  /** `Node`: value, moves left, outgoing edges in creation order, goal flag. */
  datatype Node = Node(value: int, movesLeft: int, edges: seq<Edge>, isGoal: bool)

  /** `new Node(value, moves_left)`: no edges yet, not the goal. */
  function NewNode(value: int, movesLeft: int): Node
  {
    Node(value, movesLeft, [], false)
  }

  /** One entry of `nodes_by_moves`: a moves-left count and the values of its nodes. */
  datatype Bucket = Bucket(moves: int, values: seq<int>)

  predicate HasKey(buckets: seq<Bucket>, m: int)
  {
    exists i :: 0 <= i < |buckets| && buckets[i].moves == m
  }

  predicate KeysDistinct(buckets: seq<Bucket>)
  {
    forall i, j :: 0 <= i < j < |buckets| ==> buckets[i].moves != buckets[j].moves
  }

  /** Where the entry for `m` sits, if there is one. */
  function Find(buckets: seq<Bucket>, m: int): (r: Option<nat>)
    ensures r.Some? ==> r.value < |buckets| && buckets[r.value].moves == m
  {
    if buckets == [] then None
    else if buckets[0].moves == m then Some(0)
    else match Find(buckets[1..], m)
      case Some(i) => Some(i + 1)
      case None => None
  }

  /** The entry for `m` is missed only when there is none. */
  lemma {:induction false} FindMisses(buckets: seq<Bucket>, m: int)
    ensures Find(buckets, m).None? <==> !HasKey(buckets, m)
  {
    if buckets != [] && buckets[0].moves != m {
      FindMisses(buckets[1..], m);
      if HasKey(buckets, m) {
        var i :| 0 <= i < |buckets| && buckets[i].moves == m;
        assert buckets[1..][i - 1].moves == m;
      }
    }
  }

  /** `map_get_or_set(nodes_by_moves, m, [])`: the entries afterwards and the position of
      the entry for `m`. */
  function GetOrSet(buckets: seq<Bucket>, m: int): (r: (seq<Bucket>, nat))
    ensures r.1 < |r.0| && r.0[r.1].moves == m
  {
    match Find(buckets, m)
    case Some(i) => (buckets, i)
    case None => (buckets + [Bucket(m, [])], |buckets|)
  }

  /** The entries already there stay, and one is added, empty and at the end, exactly
      when `m` had none. */
  lemma GetOrSetAdds(buckets: seq<Bucket>, m: int)
    ensures HasKey(buckets, m) ==> GetOrSet(buckets, m).0 == buckets
    ensures !HasKey(buckets, m) ==> GetOrSet(buckets, m) == (buckets + [Bucket(m, [])], |buckets|)
  {
    FindMisses(buckets, m);
  }

  /** `map_get_or_set(nodes_by_moves, m, []).push(v)` */
  function Place(buckets: seq<Bucket>, m: int, v: int): seq<Bucket>
  {
    var (bs, i) := GetOrSet(buckets, m);
    bs[i := Bucket(m, bs[i].values + [v])]
  }

  predicate AllIn(list: seq<int>, nodes: map<int, Node>)
  {
    forall v :: v in list ==> v in nodes
  }

  /** The values of `list` whose nodes have `m` moves left, in list order. */
  function AtLevel(list: seq<int>, nodes: map<int, Node>, m: int): seq<int>
    requires AllIn(list, nodes)
  {
    if list == [] then []
    else
      var v := list[|list| - 1];
      AtLevel(list[..|list| - 1], nodes, m) + (if nodes[v].movesLeft == m then [v] else [])
  }

  /** The grouping `add_node` builds when the values of `list` are added in order. */
  function BucketsOf(list: seq<int>, nodes: map<int, Node>): seq<Bucket>
    requires AllIn(list, nodes)
  {
    if list == [] then []
    else
      var v := list[|list| - 1];
      Place(BucketsOf(list[..|list| - 1], nodes), nodes[v].movesLeft, v)
  }

  /** The position in `list` of the first value whose node has `m` moves left, or
      `|list|` when there is none. */
  function FirstAt(list: seq<int>, nodes: map<int, Node>, m: int): (r: nat)
    requires AllIn(list, nodes)
    ensures r <= |list|
    ensures r < |list| ==> list[r] in nodes && nodes[list[r]].movesLeft == m
    ensures forall k :: 0 <= k < r ==> list[k] in nodes && nodes[list[k]].movesLeft != m
  {
    if list == [] then 0
    else
      var pre, last := list[..|list| - 1], list[|list| - 1];
      assert forall k :: 0 <= k < |list| ==> list[k] in list;
      assert forall k :: 0 <= k < |pre| ==> pre[k] == list[k];
      assert last in list;
      var f := FirstAt(pre, nodes, m);
      if f < |pre| then f
      else if nodes[last].movesLeft == m then |pre|
      else |list|
  }

  /** What a grouping of the values of `list` must be: no two groups for the same
      count, each group holding exactly the values at its count in list order, a
      group for every count that occurs, and the groups in the order in which their
      counts first occur in `list` (the insertion order of a JavaScript `Map`). */
  ghost predicate Groups(buckets: seq<Bucket>, list: seq<int>, nodes: map<int, Node>)
    requires AllIn(list, nodes)
  {
    && KeysDistinct(buckets)
    && (forall i :: 0 <= i < |buckets| ==>
          buckets[i].values == AtLevel(list, nodes, buckets[i].moves) && buckets[i].values != [])
    && (forall m :: !HasKey(buckets, m) ==> AtLevel(list, nodes, m) == [])
    && InFirstOrder(buckets, list, nodes)
  }

  /** The groups come in the order in which their counts first occur in `list`. */
  ghost predicate InFirstOrder(buckets: seq<Bucket>, list: seq<int>, nodes: map<int, Node>)
    requires AllIn(list, nodes)
  {
    forall i, j :: 0 <= i < j < |buckets| ==>
      FirstAt(list, nodes, buckets[i].moves) < FirstAt(list, nodes, buckets[j].moves)
  }

  /** Appending a value leaves the first occurrence of a count that already occurs,
      and otherwise puts it at the new value or past the end. */
  lemma FirstAtSnoc(list: seq<int>, nodes: map<int, Node>, v: int, m: int)
    requires AllIn(list, nodes) && v in nodes
    ensures AllIn(list + [v], nodes)
    ensures FirstAt(list + [v], nodes, m) ==
            if FirstAt(list, nodes, m) < |list| then FirstAt(list, nodes, m)
            else if nodes[v].movesLeft == m then |list| else |list| + 1
  {
    assert (list + [v])[..|list|] == list;
  }

  /** A count occurs in `list` exactly when its level is not empty. */
  lemma FirstAtOccurs(list: seq<int>, nodes: map<int, Node>, m: int)
    requires AllIn(list, nodes)
    ensures FirstAt(list, nodes, m) < |list| <==> AtLevel(list, nodes, m) != []
  {
    var f := FirstAt(list, nodes, m);
    if f < |list| {
      AtLevelMembers(list, nodes, m, list[f]);
    }
    if AtLevel(list, nodes, m) != [] {
      var u := AtLevel(list, nodes, m)[0];
      AtLevelMembers(list, nodes, m, u);
      var k :| 0 <= k < |list| && list[k] == u;
    }
  }

  /** The first value of a non-empty level is the value at the first occurrence of
      its count. */
  lemma {:induction false} AtLevelHead(list: seq<int>, nodes: map<int, Node>, m: int)
    requires AllIn(list, nodes) && AtLevel(list, nodes, m) != []
    ensures FirstAt(list, nodes, m) < |list|
    ensures AtLevel(list, nodes, m)[0] == list[FirstAt(list, nodes, m)]
  {
    var pre := list[..|list| - 1];
    assert AllIn(pre, nodes) by {
      forall v | v in pre ensures v in list { var k :| 0 <= k < |pre| && pre[k] == v; assert list[k] == v; }
    }
    FirstAtOccurs(list, nodes, m);
    FirstAtOccurs(pre, nodes, m);
    if AtLevel(pre, nodes, m) != [] {
      AtLevelHead(pre, nodes, m);
      assert list[FirstAt(pre, nodes, m)] == pre[FirstAt(pre, nodes, m)];
    }
  }

  /** The first occurrence of a count depends only on the moves-left counts of the
      listed nodes. */
  lemma {:induction false} FirstAtFrame(list: seq<int>, nodes: map<int, Node>, nodes': map<int, Node>, m: int)
    requires AllIn(list, nodes) && AllIn(list, nodes')
    requires forall v :: v in list ==> nodes[v].movesLeft == nodes'[v].movesLeft
    ensures FirstAt(list, nodes, m) == FirstAt(list, nodes', m)
  {
    if list != [] {
      var pre := list[..|list| - 1];
      assert list[|list| - 1] in list;
      assert AllIn(pre, nodes) && AllIn(pre, nodes') by {
        forall v | v in pre ensures v in list { var k :| 0 <= k < |pre| && pre[k] == v; assert list[k] == v; }
      }
      FirstAtFrame(pre, nodes, nodes', m);
      var v := list[|list| - 1];
      assert nodes[v].movesLeft == nodes'[v].movesLeft;
      var f := FirstAt(pre, nodes, m);
      assert FirstAt(list, nodes, m) == if f < |pre| then f else if nodes[v].movesLeft == m then |pre| else |list|;
      assert FirstAt(list, nodes', m) == if f < |pre| then f else if nodes'[v].movesLeft == m then |pre| else |list|;
    }
  }

  lemma AtLevelSnoc(list: seq<int>, nodes: map<int, Node>, v: int, m: int)
    requires AllIn(list, nodes) && v in nodes
    ensures AllIn(list + [v], nodes)
    ensures AtLevel(list + [v], nodes, m) == AtLevel(list, nodes, m) + (if nodes[v].movesLeft == m then [v] else [])
  {
    assert (list + [v])[..|list|] == list;
  }

  lemma PlaceKeepsKeysDistinct(buckets: seq<Bucket>, m: int, v: int)
    requires KeysDistinct(buckets)
    ensures KeysDistinct(Place(buckets, m, v))
  {
    var r := Place(buckets, m, v);
    var (b2, i) := GetOrSet(buckets, m);
    GetOrSetAdds(buckets, m);
    forall k, j | 0 <= k < j < |r| ensures r[k].moves != r[j].moves
    {
      if j == i && !HasKey(buckets, m) {
        assert r[k] == buckets[k];
      } else {
        assert r[k].moves == buckets[k].moves && r[j].moves == buckets[j].moves;
      }
    }
  }

  /** Filing a value keeps each group equal to its level of the longer list. */
  lemma PlaceKeepsLevels(buckets: seq<Bucket>, list: seq<int>, nodes: map<int, Node>, v: int)
    requires AllIn(list, nodes) && v in nodes
    requires KeysDistinct(buckets)
    requires forall i :: 0 <= i < |buckets| ==>
               buckets[i].values == AtLevel(list, nodes, buckets[i].moves) && buckets[i].values != []
    requires forall m :: !HasKey(buckets, m) ==> AtLevel(list, nodes, m) == []
    ensures AllIn(list + [v], nodes)
    ensures var r := Place(buckets, nodes[v].movesLeft, v);
            forall k :: 0 <= k < |r| ==> r[k].values == AtLevel(list + [v], nodes, r[k].moves) && r[k].values != []
  {
    var m := nodes[v].movesLeft;
    var list' := list + [v];
    AtLevelSnoc(list, nodes, v, m);
    var r := Place(buckets, m, v);
    var (b2, i) := GetOrSet(buckets, m);
    GetOrSetAdds(buckets, m);
    forall k | 0 <= k < |r|
      ensures r[k].values == AtLevel(list', nodes, r[k].moves) && r[k].values != []
    {
      AtLevelSnoc(list, nodes, v, r[k].moves);
      if k != i {
        assert r[k] == buckets[k] && buckets[k].moves != m;
      } else if HasKey(buckets, m) {
        assert r[k].values == buckets[i].values + [v];
      } else {
        assert r[k].values == [v];
      }
    }
  }

  /** After filing a value, every count that occurs in the longer list has a group. */
  lemma PlaceCoversLevels(buckets: seq<Bucket>, list: seq<int>, nodes: map<int, Node>, v: int)
    requires AllIn(list, nodes) && v in nodes
    requires forall m :: !HasKey(buckets, m) ==> AtLevel(list, nodes, m) == []
    ensures AllIn(list + [v], nodes)
    ensures forall m :: !HasKey(Place(buckets, nodes[v].movesLeft, v), m) ==> AtLevel(list + [v], nodes, m) == []
  {
    var r := Place(buckets, nodes[v].movesLeft, v);
    var (b2, i) := GetOrSet(buckets, nodes[v].movesLeft);
    GetOrSetAdds(buckets, nodes[v].movesLeft);
    assert r[i].moves == nodes[v].movesLeft;
    forall m' | !HasKey(r, m') ensures AtLevel(list + [v], nodes, m') == []
    {
      AtLevelSnoc(list, nodes, v, m');
      forall k | 0 <= k < |buckets| ensures buckets[k].moves != m' {
        assert r[k].moves == buckets[k].moves;
      }
    }
  }

  /** Appending a value does not move the first occurrence of a count that has a
      group. */
  lemma FirstAtKept(buckets: seq<Bucket>, list: seq<int>, nodes: map<int, Node>, v: int)
    requires AllIn(list, nodes) && v in nodes
    requires forall i :: 0 <= i < |buckets| ==>
               buckets[i].values == AtLevel(list, nodes, buckets[i].moves) && buckets[i].values != []
    ensures AllIn(list + [v], nodes)
    ensures forall k :: 0 <= k < |buckets| ==>
              FirstAt(list + [v], nodes, buckets[k].moves) == FirstAt(list, nodes, buckets[k].moves) < |list|
  {
    forall k | 0 <= k < |buckets|
      ensures FirstAt(list + [v], nodes, buckets[k].moves) == FirstAt(list, nodes, buckets[k].moves) < |list|
    {
      FirstAtOccurs(list, nodes, buckets[k].moves);
      FirstAtSnoc(list, nodes, v, buckets[k].moves);
    }
  }

  /** Groups with the same counts, whose first occurrences have not moved, stay in
      order. */
  lemma OrderKept(buckets: seq<Bucket>, r: seq<Bucket>, list: seq<int>, list': seq<int>, nodes: map<int, Node>)
    requires AllIn(list, nodes) && AllIn(list', nodes)
    requires |r| == |buckets| && forall k :: 0 <= k < |r| ==> r[k].moves == buckets[k].moves
    requires forall k :: 0 <= k < |buckets| ==>
               FirstAt(list', nodes, buckets[k].moves) == FirstAt(list, nodes, buckets[k].moves)
    requires InFirstOrder(buckets, list, nodes)
    ensures InFirstOrder(r, list', nodes)
  {
    forall i, j | 0 <= i < j < |r| ensures FirstAt(list', nodes, r[i].moves) < FirstAt(list', nodes, r[j].moves) {
      assert FirstAt(list, nodes, buckets[i].moves) < FirstAt(list, nodes, buckets[j].moves);
    }
  }

  /** A group added at the end for a count that first occurs after all the others
      keeps the groups in order. */
  lemma OrderExtended(buckets: seq<Bucket>, r: seq<Bucket>, list: seq<int>, list': seq<int>, nodes: map<int, Node>, m: int)
    requires AllIn(list, nodes) && AllIn(list', nodes)
    requires |r| == |buckets| + 1 && r[|buckets|].moves == m
    requires forall k :: 0 <= k < |buckets| ==> r[k] == buckets[k]
    requires forall k :: 0 <= k < |buckets| ==>
               FirstAt(list', nodes, buckets[k].moves) == FirstAt(list, nodes, buckets[k].moves) < |list|
    requires FirstAt(list', nodes, m) == |list|
    requires InFirstOrder(buckets, list, nodes)
    ensures InFirstOrder(r, list', nodes)
  {
    forall i, j | 0 <= i < j < |r| ensures FirstAt(list', nodes, r[i].moves) < FirstAt(list', nodes, r[j].moves) {
      assert r[i] == buckets[i];
      if j < |buckets| {
        assert r[j] == buckets[j];
        assert FirstAt(list, nodes, buckets[i].moves) < FirstAt(list, nodes, buckets[j].moves);
      } else {
        assert r[j].moves == m;
        assert FirstAt(list', nodes, buckets[i].moves) < |list|;
      }
    }
  }

  /** Filing a value keeps the groups in order of first occurrence: a count that is
      new to the list gets the last group, which is where it first occurs. */
  lemma PlaceKeepsOrder(buckets: seq<Bucket>, list: seq<int>, nodes: map<int, Node>, v: int)
    requires AllIn(list, nodes) && v in nodes
    requires forall i :: 0 <= i < |buckets| ==>
               buckets[i].values == AtLevel(list, nodes, buckets[i].moves) && buckets[i].values != []
    requires forall m :: !HasKey(buckets, m) ==> AtLevel(list, nodes, m) == []
    requires InFirstOrder(buckets, list, nodes)
    ensures AllIn(list + [v], nodes)
    ensures InFirstOrder(Place(buckets, nodes[v].movesLeft, v), list + [v], nodes)
  {
    var m := nodes[v].movesLeft;
    var r := Place(buckets, m, v);
    GetOrSetAdds(buckets, m);
    FirstAtKept(buckets, list, nodes, v);
    if HasKey(buckets, m) {
      OrderKept(buckets, r, list, list + [v], nodes);
    } else {
      PlaceNew(buckets, m, v);
      FirstAtOccurs(list, nodes, m);
      FirstAtSnoc(list, nodes, v, m);
      OrderExtended(buckets, r, list, list + [v], nodes, m);
    }
  }

  lemma PlaceKeepsGroups(buckets: seq<Bucket>, list: seq<int>, nodes: map<int, Node>, v: int)
    requires AllIn(list, nodes) && v in nodes
    requires Groups(buckets, list, nodes)
    ensures AllIn(list + [v], nodes)
    ensures Groups(Place(buckets, nodes[v].movesLeft, v), list + [v], nodes)
  {
    PlaceKeepsKeysDistinct(buckets, nodes[v].movesLeft, v);
    PlaceKeepsLevels(buckets, list, nodes, v);
    PlaceCoversLevels(buckets, list, nodes, v);
    PlaceKeepsOrder(buckets, list, nodes, v);
  }

  /** The grouping built by `add_node` is the grouping of the node list by moves left. */
  lemma {:induction false} BucketsOfGroups(list: seq<int>, nodes: map<int, Node>)
    requires AllIn(list, nodes)
    ensures Groups(BucketsOf(list, nodes), list, nodes)
  {
    if list != [] {
      var pre := list[..|list| - 1];
      var v := list[|list| - 1];
      assert AllIn(pre, nodes);
      BucketsOfGroups(pre, nodes);
      PlaceKeepsGroups(BucketsOf(pre, nodes), pre, nodes, v);
      assert pre + [v] == list;
    }
  }

  /** The groups at a count depend only on the moves-left counts of the listed nodes. */
  lemma {:induction false} AtLevelFrame(list: seq<int>, nodes: map<int, Node>, nodes': map<int, Node>, m: int)
    requires AllIn(list, nodes) && AllIn(list, nodes')
    requires forall v :: v in list ==> nodes[v].movesLeft == nodes'[v].movesLeft
    ensures AtLevel(list, nodes, m) == AtLevel(list, nodes', m)
  {
    if list != [] {
      AtLevelFrame(list[..|list| - 1], nodes, nodes', m);
    }
  }

  /** A value is at level `m` exactly when it is listed and its node has `m` moves
      left. */
  lemma {:induction false} AtLevelMembers(list: seq<int>, nodes: map<int, Node>, m: int, u: int)
    requires AllIn(list, nodes)
    ensures u in AtLevel(list, nodes, m) <==> u in list && nodes[u].movesLeft == m
  {
    if list != [] {
      var pre := list[..|list| - 1];
      AtLevelMembers(pre, nodes, m, u);
      assert list == pre + [list[|list| - 1]];
    }
  }

  /** The moves-left counts never increase along `list`. */
  ghost predicate LevelsDescend(list: seq<int>, nodes: map<int, Node>)
  {
    && (forall i :: 0 <= i < |list| ==> list[i] in nodes)
    && (forall i, j :: 0 <= i < j < |list| ==> nodes[list[i]].movesLeft >= nodes[list[j]].movesLeft)
  }

  /** The order of `LevelsDescend` depends only on the moves-left counts. */
  lemma LevelsDescendFrame(list: seq<int>, nodes: map<int, Node>, nodes': map<int, Node>)
    requires LevelsDescend(list, nodes)
    requires forall u :: u in nodes ==> u in nodes' && nodes'[u].movesLeft == nodes[u].movesLeft
    ensures LevelsDescend(list, nodes')
  {
    forall i | 0 <= i < |list| ensures list[i] in nodes' && nodes'[list[i]].movesLeft == nodes[list[i]].movesLeft {
      var a := list[i];
      assert a in nodes;
    }
  }

  /** When the counts never increase along the list, the groups, kept in the order in
      which their counts first occur, go strictly down from the count of the first
      listed node. */
  lemma GroupsDescend(buckets: seq<Bucket>, list: seq<int>, nodes: map<int, Node>)
    requires AllIn(list, nodes) && Groups(buckets, list, nodes) && LevelsDescend(list, nodes)
    ensures forall i, j :: 0 <= i < j < |buckets| ==> buckets[i].moves > buckets[j].moves
    ensures list != [] ==> buckets != [] && list[0] in nodes && buckets[0].moves == nodes[list[0]].movesLeft
  {
    GroupsDescendPairs(buckets, list, nodes);
    if list != [] {
      GroupsStartAtHead(buckets, list, nodes);
    }
  }

  lemma GroupsDescendPairs(buckets: seq<Bucket>, list: seq<int>, nodes: map<int, Node>)
    requires AllIn(list, nodes) && KeysDistinct(buckets) && LevelsDescend(list, nodes)
    requires forall i :: 0 <= i < |buckets| ==>
               buckets[i].values == AtLevel(list, nodes, buckets[i].moves) && buckets[i].values != []
    requires InFirstOrder(buckets, list, nodes)
    ensures forall i, j :: 0 <= i < j < |buckets| ==> buckets[i].moves > buckets[j].moves
  {
    forall i, j | 0 <= i < j < |buckets| ensures buckets[i].moves > buckets[j].moves {
      var mi, mj := buckets[i].moves, buckets[j].moves;
      FirstAtOccurs(list, nodes, mi);
      FirstAtOccurs(list, nodes, mj);
      var fi, fj := FirstAt(list, nodes, mi), FirstAt(list, nodes, mj);
      assert fi < fj < |list|;
      assert nodes[list[fi]].movesLeft >= nodes[list[fj]].movesLeft;
    }
  }

  lemma GroupsStartAtHead(buckets: seq<Bucket>, list: seq<int>, nodes: map<int, Node>)
    requires AllIn(list, nodes) && list != []
    requires forall m :: !HasKey(buckets, m) ==> AtLevel(list, nodes, m) == []
    requires InFirstOrder(buckets, list, nodes)
    ensures buckets != [] && list[0] in nodes && buckets[0].moves == nodes[list[0]].movesLeft
  {
    var h := list[0];
    assert h in list;
    assert h in nodes;
    var m0 := nodes[list[0]].movesLeft;
    AtLevelMembers(list, nodes, m0, list[0]);
    assert HasKey(buckets, m0);
    var b :| 0 <= b < |buckets| && buckets[b].moves == m0;
    assert FirstAt(list, nodes, m0) == 0;
    var f0, fb := FirstAt(list, nodes, buckets[0].moves), FirstAt(list, nodes, buckets[b].moves);
    assert fb == 0 <= f0;
    assert b == 0;
  }

  lemma GroupsFrame(buckets: seq<Bucket>, list: seq<int>, nodes: map<int, Node>, nodes': map<int, Node>)
    requires AllIn(list, nodes) && AllIn(list, nodes')
    requires forall v :: v in list ==> nodes[v].movesLeft == nodes'[v].movesLeft
    requires Groups(buckets, list, nodes)
    ensures Groups(buckets, list, nodes')
  {
    forall m ensures AtLevel(list, nodes, m) == AtLevel(list, nodes', m) {
      AtLevelFrame(list, nodes, nodes', m);
    }
    forall m ensures FirstAt(list, nodes, m) == FirstAt(list, nodes', m) {
      FirstAtFrame(list, nodes, nodes', m);
    }
  }

  /** Adding a count that has no entry yet opens a new entry at the end. */
  lemma PlaceNew(buckets: seq<Bucket>, m: int, v: int)
    requires !HasKey(buckets, m)
    ensures Place(buckets, m, v) == buckets + [Bucket(m, [v])]
  {
    GetOrSetAdds(buckets, m);
    var r := GetOrSet(buckets, m);
    assert r.0[r.1].values + [v] == [v];
  }

  /** Adding a count that has an entry appends to that entry and to nothing else. */
  lemma PlaceExisting(buckets: seq<Bucket>, m: int, v: int, i: nat)
    requires KeysDistinct(buckets) && i < |buckets| && buckets[i].moves == m
    ensures Place(buckets, m, v) == buckets[i := Bucket(m, buckets[i].values + [v])]
  {
    GetOrSetAdds(buckets, m);
  }

  /** The state a `Graph` keeps consistent: values are unique, the list and the map
      hold the same nodes, each node is filed under its own value, and the groups are
      the node list grouped by moves left. */
  ghost predicate Consistent(list: seq<int>, nodes: map<int, Node>, buckets: seq<Bucket>)
  {
    && (forall i, j :: 0 <= i < j < |list| ==> list[i] != list[j])
    && (forall v :: v in nodes <==> v in list)
    && (forall v :: v in nodes ==> nodes[v].value == v)
    && Groups(buckets, list, nodes)
  }

  /** A single node, listed and grouped on its own, is a consistent graph. */
  lemma ConsistentSingle(n: Node)
    ensures Consistent([n.value], map[n.value := n], [Bucket(n.movesLeft, [n.value])])
  {
    var list := [n.value];
    var nodes := map[n.value := n];
    var buckets := [Bucket(n.movesLeft, [n.value])];
    assert AllIn(list, nodes);
    forall m ensures AtLevel(list, nodes, m) == if m == n.movesLeft then [n.value] else [] {
      assert list[..0] == [];
    }
    assert buckets[0].moves == n.movesLeft;
    forall m | !HasKey(buckets, m) ensures AtLevel(list, nodes, m) == [] {
      assert m != n.movesLeft;
    }
    assert KeysDistinct(buckets) && InFirstOrder(buckets, list, nodes);
    assert Groups(buckets, list, nodes);
  }

  lemma ConsistentAdd(list: seq<int>, nodes: map<int, Node>, buckets: seq<Bucket>, n: Node)
    requires Consistent(list, nodes, buckets) && n.value !in nodes
    ensures Consistent(list + [n.value], nodes[n.value := n], Place(buckets, n.movesLeft, n.value))
  {
    var nodes' := nodes[n.value := n];
    ListAdd(list, nodes, n);
    GroupsFrame(buckets, list, nodes, nodes');
    PlaceKeepsGroups(buckets, list, nodes', n.value);
  }

  /** Listing and entering a node with a new value keeps the list and map in step. */
  lemma ListAdd(list: seq<int>, nodes: map<int, Node>, n: Node)
    requires forall i, j :: 0 <= i < j < |list| ==> list[i] != list[j]
    requires forall v :: v in nodes <==> v in list
    requires forall v :: v in nodes ==> nodes[v].value == v
    requires n.value !in nodes
    ensures var list', nodes' := list + [n.value], nodes[n.value := n];
            && (forall i, j :: 0 <= i < j < |list'| ==> list'[i] != list'[j])
            && (forall v :: v in nodes' <==> v in list')
            && (forall v :: v in nodes' ==> nodes'[v].value == v)
  {
    var list' := list + [n.value];
    forall i, j | 0 <= i < j < |list'| ensures list'[i] != list'[j] {
      if j == |list| {
        assert list[i] in list;
      }
    }
  }

  lemma ConsistentUpdate(list: seq<int>, nodes: map<int, Node>, buckets: seq<Bucket>, n: Node)
    requires Consistent(list, nodes, buckets)
    requires n.value in nodes && nodes[n.value].movesLeft == n.movesLeft
    ensures Consistent(list, nodes[n.value := n], buckets)
  {
    GroupsFrame(buckets, list, nodes, nodes[n.value := n]);
  }

  /** `Graph`: the nodes found so far and the start node. */
  class Graph {
    /** `node_list`: values in the order their nodes were added. */
    var nodeList: seq<int>
    /** `node_map`: each value's node. */
    var nodeMap: map<int, Node>
    /** `nodes_by_moves` */
    var nodesByMoves: seq<Bucket>
    /** `start_node`, by value. */
    var startValue: int

    ghost predicate Valid()
      reads this
    {
      Consistent(nodeList, nodeMap, nodesByMoves) && startValue in nodeMap
    }

    /** `new Graph(start_node)`: a graph holding only the start node. */
    constructor(start: Node)
      ensures Valid()
      ensures nodeList == [start.value] && nodeMap == map[start.value := start]
      ensures nodesByMoves == [Bucket(start.movesLeft, [start.value])]
      ensures startValue == start.value
    {
      nodeList := [start.value];
      nodeMap := map[start.value := start];
      nodesByMoves := [Bucket(start.movesLeft, [start.value])];
      startValue := start.value;
      ConsistentSingle(start);
    }

    /** `get_node`: the node with this value, if any. */
    method GetNode(value: int) returns (r: Option<Node>)
      ensures value in nodeMap <==> r.Some?
      ensures r.Some? ==> r.value == nodeMap[value]
    {
      if value in nodeMap {
        return Some(nodeMap[value]);
      }
      return None;
    }

    /** `add_node`: refuses a value already present (the source throws, and changes
        nothing); otherwise the node goes at the end of the node list, into the map,
        and at the end of its moves-left group, which is created if absent. */
    method AddNode(node: Node) returns (added: bool)
      requires Valid()
      modifies this
      ensures Valid()
      ensures added <==> node.value !in old(nodeMap)
      ensures !added ==> nodeList == old(nodeList) && nodeMap == old(nodeMap) && nodesByMoves == old(nodesByMoves)
      ensures added ==> nodeList == old(nodeList) + [node.value]
      ensures added ==> nodeMap == old(nodeMap)[node.value := node]
      ensures added ==> nodesByMoves == Place(old(nodesByMoves), node.movesLeft, node.value)
      ensures startValue == old(startValue)
    {
      if node.value in nodeMap {
        return false;
      }
      ConsistentAdd(nodeList, nodeMap, nodesByMoves, node);
      nodeList := nodeList + [node.value];
      nodeMap := nodeMap[node.value := node];
      nodesByMoves := Place(nodesByMoves, node.movesLeft, node.value);
      return true;
    }

    /** `node.edges.push(edge)` on the node with value `value`. */
    method PushEdge(value: int, edge: Edge)
      requires Valid() && value in nodeMap
      modifies this
      ensures Valid()
      ensures nodeMap == old(nodeMap)[value := old(nodeMap)[value].(edges := old(nodeMap)[value].edges + [edge])]
      ensures nodeList == old(nodeList) && nodesByMoves == old(nodesByMoves) && startValue == old(startValue)
    {
      var n := nodeMap[value];
      ConsistentUpdate(nodeList, nodeMap, nodesByMoves, n.(edges := n.edges + [edge]));
      nodeMap := nodeMap[value := n.(edges := n.edges + [edge])];
    }

    /** Goal marking in `do_it`: the node with the goal value, if one was reached,
        becomes the goal; nothing else changes. */
    method MarkGoal(goal: int)
      requires Valid()
      modifies this
      ensures Valid()
      ensures goal in old(nodeMap) ==> nodeMap == old(nodeMap)[goal := old(nodeMap)[goal].(isGoal := true)]
      ensures goal !in old(nodeMap) ==> nodeMap == old(nodeMap)
      ensures nodeList == old(nodeList) && nodesByMoves == old(nodesByMoves) && startValue == old(startValue)
    {
      var found := GetNode(goal);
      if found.Some? {
        ConsistentUpdate(nodeList, nodeMap, nodesByMoves, found.value.(isGoal := true));
        nodeMap := nodeMap[goal := found.value.(isGoal := true)];
      }
    }
  }
}
