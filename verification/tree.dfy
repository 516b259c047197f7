/**
 * Tree reconciliation: the kd-tree of tree.json names stations by code; the output names them by
 * id. A node whose own code does not resolve aborts the build, a child that does not resolve is
 * dropped with a warning, and a root that does not resolve is left undefined.
 */
module Tree {
  import opened Js
  import opened Console
  import opened CodeMap
  import opened Stations

  /** A vertex of tree.json; only its code and its children's codes are read. */
  datatype TreeNodeIn = TreeNodeIn(code: int, left: Option<int>, right: Option<int>)

  /** The content of tree.json; only `root` and `node_list` are read. */
  datatype TreeSegment = TreeSegment(root: Option<int>, node_list: Option<seq<TreeNodeIn>>)

  /** A vertex of the output tree; an absent child is `undefined`. */
  datatype TreeNode = TreeNode(id: int, left: Option<int>, right: Option<int>)

  /** The output `tree` object; an absent root is `undefined`. */
  datatype TreeOut = TreeOut(root: Option<int>, node_list: seq<TreeNode>)

  /**
   * `item.left ? rawStation.get(item.left) : null`: `null` for a falsy child code, otherwise the
   * station found, or `undefined`.
   */
  function ChildLookup(m: StationMap, child: Option<int>): (r: Nullish<StationRecord>)
    ensures r.Null? <==> Missing(child)
    ensures r.Undefined? <==> !Missing(child) && child.value !in Keys(m)
    ensures r.Defined? ==> Get(m, child.value) == Some(r.value)
  {
    if Missing(child) then Null
    else match Get(m, child.value)
      case None => Undefined
      case Some(s) => Defined(s)
  }

  /** `left?.id`: the child's station id, absent for a falsy or unresolved child code. */
  function ChildId(m: StationMap, child: Option<int>): (r: Option<int>)
    ensures r.Some? <==> !Missing(child) && child.value in Keys(m)
    ensures r.Some? ==> r == IdOf(m, child.value)
  {
    match ChildLookup(m, child)
    case Defined(s) => Some(s.id)
    case _ => None
  }

  /** The output vertex for a node whose code resolves. */
  function NodeOf(m: StationMap, item: TreeNodeIn): (r: TreeNode)
    requires item.code in Keys(m)
    ensures Some(r.id) == IdOf(m, item.code)
    ensures r.left == ChildId(m, item.left) && r.right == ChildId(m, item.right)
  {
    TreeNode(Get(m, item.code).value.id, ChildId(m, item.left), ChildId(m, item.right))
  }

  /** The warnings for a node's children: one per child code that is truthy but unresolved. */
  function ChildMessages(m: StationMap, item: TreeNodeIn): seq<Message> {
    (if ChildLookup(m, item.left).Undefined? then [LeftNotFound(item.left.value)] else [])
    + (if ChildLookup(m, item.right).Undefined? then [RightNotFound(item.right.value)] else [])
  }

  /** The node loop as a value: the re-keyed vertices, or the code of the node that aborts it. */
  function Reconcile(m: StationMap, items: seq<TreeNodeIn>): Result<seq<TreeNode>, int> {
    if items == [] then Success([])
    else if items[0].code !in Keys(m) then Failure(items[0].code)
    else Prepend([NodeOf(m, items[0])], Reconcile(m, items[1..]))
  }

  /** `nodes` put in front of the vertices of a finished loop; an abort stays an abort. */
  function Prepend(nodes: seq<TreeNode>, r: Result<seq<TreeNode>, int>): Result<seq<TreeNode>, int> {
    match r
    case Failure(_) => r
    case Success(rest) => Success(nodes + rest)
  }

  lemma PrependEmpty(r: Result<seq<TreeNode>, int>)
    ensures Prepend([], r) == r
  {
    if r.Success? {
      assert [] + r.value == r.value;
    }
  }

  lemma PrependAppend(a: seq<TreeNode>, b: seq<TreeNode>, r: Result<seq<TreeNode>, int>)
    ensures Prepend(a + b, r) == Prepend(a, Prepend(b, r))
  {
    if r.Success? {
      assert (a + b) + r.value == a + (b + r.value);
    }
  }

  /** What the node loop writes to the console, ending with the warning that is thrown. */
  function NodesLog(m: StationMap, items: seq<TreeNodeIn>): seq<Message> {
    if items == [] then []
    else if items[0].code !in Keys(m) then [TreeStationNotFound(items[0].code)]
    else ChildMessages(m, items[0]) + NodesLog(m, items[1..])
  }

  /** The node loop finishes exactly when every node code resolves. */
  lemma {:induction false} ReconcileResolves(m: StationMap, items: seq<TreeNodeIn>)
    ensures Reconcile(m, items).Success? <==> forall k :: 0 <= k < |items| ==> items[k].code in Keys(m)
  {
    if items != [] {
      ReconcileResolves(m, items[1..]);
      if !(forall k :: 0 <= k < |items| ==> items[k].code in Keys(m)) {
        var k :| 0 <= k < |items| && items[k].code !in Keys(m);
        if k > 0 {
          assert items[1..][k - 1] == items[k];
        }
      }
    }
  }

  /** A finished node loop yields one vertex per node, in order. */
  lemma {:induction false} ReconcileVertices(m: StationMap, items: seq<TreeNodeIn>)
    requires forall k :: 0 <= k < |items| ==> items[k].code in Keys(m)
    ensures Reconcile(m, items).Success?
    ensures |Reconcile(m, items).value| == |items|
    ensures forall k :: 0 <= k < |items| ==> Reconcile(m, items).value[k] == NodeOf(m, items[k])
  {
    ReconcileResolves(m, items);
    if items != [] {
      assert forall k :: 0 <= k < |items[1..]| ==> items[1..][k] == items[k + 1];
      ReconcileVertices(m, items[1..]);
      forall k | 0 <= k < |items| ensures Reconcile(m, items).value[k] == NodeOf(m, items[k]) {
        if k > 0 {
          assert items[1..][k - 1] == items[k];
        }
      }
    }
  }

  /** When the node loop aborts, it names the first node whose code does not resolve. */
  lemma {:induction false} ReconcileFailure(m: StationMap, items: seq<TreeNodeIn>)
    ensures Reconcile(m, items).Failure? ==>
              exists k :: 0 <= k < |items| && items[k].code == Reconcile(m, items).error
                          && items[k].code !in Keys(m)
                          && forall j :: 0 <= j < k ==> items[j].code in Keys(m)
  {
    if items != [] && items[0].code in Keys(m) && Reconcile(m, items).Failure? {
      ReconcileFailure(m, items[1..]);
      var k :| 0 <= k < |items[1..]| && items[1..][k].code == Reconcile(m, items).error
                && items[1..][k].code !in Keys(m)
                && forall j :: 0 <= j < k ==> items[1..][j].code in Keys(m);
      assert items[k + 1] == items[1..][k];
      forall j | 0 <= j < k + 1 ensures items[j].code in Keys(m) {
        if j > 0 {
          assert items[j] == items[1..][j - 1];
        }
      }
    }
  }

  /** One round of the node loop (build.ts lines 73-86): the vertex, or nothing when the build aborts. */
  method ReconcileNode(rawStation: StationMap, item: TreeNodeIn) returns (node: Option<TreeNode>, log: seq<Message>)
    ensures node.None? <==> item.code !in Keys(rawStation)
    ensures node.Some? ==> node.value == NodeOf(rawStation, item)
    ensures log == if node.None? then [TreeStationNotFound(item.code)] else ChildMessages(rawStation, item)
  {
    var s := Get(rawStation, item.code);
    if s.None? {
      return None, [TreeStationNotFound(item.code)];
    }

    var left := if Missing(item.left) then Null else match Get(rawStation, item.left.value) case None => Undefined case Some(x) => Defined(x);
    var right := if Missing(item.right) then Null else match Get(rawStation, item.right.value) case None => Undefined case Some(x) => Defined(x);

    log := [];
    if left.Undefined? {
      log := log + [LeftNotFound(item.left.value)];
    }
    if right.Undefined? {
      log := log + [RightNotFound(item.right.value)];
    }

    node := Some(TreeNode(s.value.id, if left.Defined? then Some(left.value.id) else None,
                                      if right.Defined? then Some(right.value.id) else None));
  }

  /** The node loop (build.ts lines 72-87), returning early at the node whose code does not resolve. */
  method ReconcileNodes(rawStation: StationMap, nodeList: seq<TreeNodeIn>)
    returns (r: Result<seq<TreeNode>, int>, log: seq<Message>)
    ensures r == Reconcile(rawStation, nodeList)
    ensures log == NodesLog(rawStation, nodeList)
  {
    var tree: seq<TreeNode> := [];
    log := [];
    assert nodeList[0..] == nodeList;
    PrependEmpty(Reconcile(rawStation, nodeList));
    for i := 0 to |nodeList|
      invariant Reconcile(rawStation, nodeList) == Prepend(tree, Reconcile(rawStation, nodeList[i..]))
      invariant NodesLog(rawStation, nodeList) == log + NodesLog(rawStation, nodeList[i..])
    {
      NodesStep(rawStation, nodeList, i);
      var node, messages := ReconcileNode(rawStation, nodeList[i]);
      log := log + messages;
      if node.None? {
        return Failure(nodeList[i].code), log;
      }
      PrependAppend(tree, [node.value], Reconcile(rawStation, nodeList[i + 1..]));
      tree := tree + [node.value];
    }
    assert tree + [] == tree;
    return Success(tree), log;
  }

  /** One node of the loop: what the rest of the list yields, unfolded once. */
  lemma NodesStep(m: StationMap, items: seq<TreeNodeIn>, i: int)
    requires 0 <= i < |items|
    ensures Reconcile(m, items[i..]) == if items[i].code !in Keys(m) then Failure(items[i].code)
                                        else Prepend([NodeOf(m, items[i])], Reconcile(m, items[i + 1..]))
    ensures NodesLog(m, items[i..]) == if items[i].code !in Keys(m) then [TreeStationNotFound(items[i].code)]
                                       else ChildMessages(m, items[i]) + NodesLog(m, items[i + 1..])
  {
    assert items[i..][0] == items[i];
    assert items[i..][1..] == items[i + 1..];
  }

  /** `rawTree?.['node_list'] ?? []` */
  function NodeItems(rawTree: Nullish<TreeSegment>): seq<TreeNodeIn> {
    if rawTree.Defined? && rawTree.value.node_list.Some? then rawTree.value.node_list.value else []
  }

  /** `treeRoot`: the id of the root station, absent when the root code is falsy or unresolved. */
  function TreeRoot(m: StationMap, rawTree: Nullish<TreeSegment>): (r: Option<int>)
    ensures r.None? <==> !rawTree.Defined? || Missing(rawTree.value.root) || rawTree.value.root.value !in Keys(m)
    ensures r.Some? ==> r == IdOf(m, rawTree.value.root.value)
  {
    if !rawTree.Defined? || Missing(rawTree.value.root) then None
    else IdOf(m, rawTree.value.root.value)
  }

  /** The output tree, or the code of the node that aborts the build. */
  function TreeOf(m: StationMap, rawTree: Nullish<TreeSegment>): Result<TreeOut, int> {
    match Reconcile(m, NodeItems(rawTree))
    case Failure(c) => Failure(c)
    case Success(nodes) => Success(TreeOut(TreeRoot(m, rawTree), nodes))
  }

  /** What build.ts lines 69-97 write to the console. */
  function TreeLog(m: StationMap, rawTree: Nullish<TreeSegment>): seq<Message> {
    var nodesMissing := !rawTree.Defined? || rawTree.value.node_list.None?;
    var rootMissing := !rawTree.Defined? || Missing(rawTree.value.root);
    (if nodesMissing then [NodeListMissing] else [])
    + NodesLog(m, NodeItems(rawTree))
    + if Reconcile(m, NodeItems(rawTree)).Failure? then []
      else (if rootMissing then [RootMissing] else []) + (if Missing(TreeRoot(m, rawTree)) then [RootNotFound] else [])
  }

  /** build.ts lines 62-97: the node loop, then the root. */
  method ReconcileTree(rawStation: StationMap, rawTree: Nullish<TreeSegment>)
    returns (r: Result<TreeOut, int>, log: seq<Message>)
    ensures r == TreeOf(rawStation, rawTree)
    ensures log == TreeLog(rawStation, rawTree)
  {
    var tree: seq<TreeNode> := [];
    log := [];
    if !rawTree.Defined? || rawTree.value.node_list.None? {
      log := log + [NodeListMissing];
    } else {
      var nodes, messages := ReconcileNodes(rawStation, rawTree.value.node_list.value);
      log := log + messages;
      if nodes.Failure? {
        return Failure(nodes.error), log;
      }
      tree := nodes.value;
    }

    var treeRoot: Option<int> := None;
    if !rawTree.Defined? || Missing(rawTree.value.root) {
      log := log + [RootMissing];
    } else {
      treeRoot := IdOf(rawStation, rawTree.value.root.value);
    }

    if Missing(treeRoot) {
      log := log + [RootNotFound];
    }
    return Success(TreeOut(treeRoot, tree)), log;
  }

  /** A missing `node_list` gives an empty output list, with a warning, and never aborts. */
  lemma TreeWithoutNodes(m: StationMap, rawTree: Nullish<TreeSegment>)
    requires !rawTree.Defined? || rawTree.value.node_list.None?
    ensures TreeOf(m, rawTree).Success? && TreeOf(m, rawTree).value.node_list == []
    ensures TreeLog(m, rawTree)[0] == NodeListMissing
  {
  }

  /**
   * A root that yields no truthy id is reported; when the root code is falsy or absent the
   * report comes in two lines.
   */
  lemma TreeRootReported(m: StationMap, rawTree: Nullish<TreeSegment>)
    requires TreeOf(m, rawTree).Success?
    ensures RootNotFound in TreeLog(m, rawTree) <==> Missing(TreeOf(m, rawTree).value.root)
    ensures RootMissing in TreeLog(m, rawTree) <==> !rawTree.Defined? || Missing(rawTree.value.root)
  {
    NodesLogKinds(m, NodeItems(rawTree));
  }

  /** The node loop writes only child and node warnings. */
  lemma {:induction false} NodesLogKinds(m: StationMap, items: seq<TreeNodeIn>)
    ensures forall w :: w in NodesLog(m, items) ==> w.LeftNotFound? || w.RightNotFound? || w.TreeStationNotFound?
  {
    if items != [] && items[0].code in Keys(m) {
      NodesLogKinds(m, items[1..]);
    }
  }
}
