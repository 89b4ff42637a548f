/**
 Whole runs of the tree in place: what the values say about order, contents and
 cost holds of the nodes, and the stored sizes stay exact throughout.
 */
module SplayRuns {
  import opened SplayTree
  import opened SplayCost
  import opened SplayHeap
  import opened SplayWindow

  /** The tree of the data that the nodes hold. */
  function DataTree<D>(t: Shape<D>): Tree<D> {
    match t
    case Nil => Nil
    case Node(l, k, v, r) => Node(DataTree(l), k, v.data, DataTree(r))
  }

  lemma {:induction false} DataKeeps<D>(t: Shape<D>)
    ensures Keys(DataTree(t)) == Keys(t) && Size(DataTree(t)) == Size(t)
    ensures Ordered(DataTree(t)) <==> Ordered(t)
  {
    if t.Node? {
      DataKeeps(t.left);
      DataKeeps(t.right);
    }
  }

  /** Splaying does not look at the values. */
  lemma {:induction false} DataPartition<D>(t: Shape<D>, i: int32)
    requires t.Node?
    ensures var p := Partition(t, i);
      Partition(DataTree(t), i) == Parts(DataTree(p.less), p.key, p.val.data, DataTree(p.more), p.steps)
    decreases t
  {
    hide Wrap32;
    var r := Iterate(t, i);
    DataIterate(t, i);
    if !r.Stop? {
      DataPartition(r.rest, i);
    }
  }

  lemma DataIterate<D>(t: Shape<D>, i: int32)
    requires t.Node?
    ensures var r, d := Iterate(t, i), Iterate(DataTree(t), i);
      if r.Stop? then d == Stop(DataTree(r.less), r.key, r.val.data, DataTree(r.more))
      else if r.LinkRight? then d == LinkRight(DataTree(r.rest), r.key, r.val.data, DataTree(r.side))
      else d == LinkLeft(DataTree(r.side), r.key, r.val.data, DataTree(r.rest))
  {
    hide Wrap32;
    assert t.left.Node? <==> DataTree(t.left).Node?;
    assert t.right.Node? <==> DataTree(t.right).Node?;
    if t.left.Node? { assert t.left.left.Node? <==> DataTree(t.left.left).Node?; }
    if t.right.Node? { assert t.right.right.Node? <==> DataTree(t.right.right).Node?; }
  }

  lemma DataSplay<D>(t: Shape<D>, i: int32)
    ensures Splay(DataTree(t), i) == DataTree(Splay(t, i)) && Iterations(DataTree(t), i) == Iterations(t, i)
  {
    if t.Node? { DataPartition(t, i); }
    hide Partition;
  }

  lemma DataInsert<D>(t: Shape<D>, i: int32, n: TreeNode<D>, data: D)
    requires Found(t, i) || n.data == data
    ensures DataTree(Insert(t, i, n)) == Insert(DataTree(t), i, data)
  {
    DataSplay(t, i);
    assert t.Node? ==> Splay(t, i).Node?;
    hide Splay, Wrap32;
    var e: Shape<D> := Nil;
    assert DataTree(e) == Nil;
    if t.Node? {
      var s := Splay(t, i);
      assert DataTree(Node(e, s.key, s.val, s.right)) == Node(Nil, s.key, s.val.data, DataTree(s.right));
      assert DataTree(Node(s.left, s.key, s.val, e)) == Node(DataTree(s.left), s.key, s.val.data, Nil);
    } else {
      assert DataTree(Node(e, i, n, e)) == Node(Nil, i, data, Nil);
    }
  }

  lemma DataDelete<D>(t: Shape<D>, i: int32)
    ensures DataTree(Delete(t, i)) == Delete(DataTree(t), i)
    ensures OpIterations(DataTree(t), DeleteOp(i)) ==
      Iterations(t, i) + if Found(t, i) then Iterations(Splay(t, i).left, i) else 0
  {
    DataSplay(t, i);
    if t.Node? { DataSplay(Splay(t, i).left, i); }
    hide Splay, Iterations, Wrap32;
  }

  lemma LoopsPerIteration<D>(t: Shape<D>, i: int32)
    ensures LoopCount(t, i) <= 2 * Iterations(t, i)
  {
  }

  /** What a run has kept so far of the nodes below t. */
  ghost predicate InShape<D>(t: TreeNode?<D>, T: Shape<D>, ks: set<int32>, c: int32)
    reads Cells(T)
  {
    && Linked(t, T) && Distinct(T) && Sized(T)
    && Ordered(Turned(DataTree(T), c)) && Keys(Turned(DataTree(T), c)) <= TurnedSet(ks, c)
  }

  lemma {:induction false} TurnedData<D>(T: Shape<D>, c: int32)
    ensures DataTree(Turned(T, c)) == Turned(DataTree(T), c)
  {
    hide Compare;
    if T.Node? {
      TurnedData(T.left, c);
      TurnedData(T.right, c);
    }
  }

  lemma OpKeeps<D>(T: Shape<D>, op: Op<D>, ks: set<int32>, c: int32)
    requires Ordered(Turned(DataTree(T), c)) && Keys(Turned(DataTree(T), c)) <= TurnedSet(ks, c)
    requires Window(ks, c) && op.key in ks
    ensures Ordered(Turned(Apply(DataTree(T), op), c)) && Keys(Turned(Apply(DataTree(T), op), c)) <= TurnedSet(ks, c)
    ensures JoinLosesNothing(T, op.key)
  {
    var t, kt, k := Turned(DataTree(T), c), TurnedSet(ks, c), Compare(op.key, c);
    var m := Contents(t);
    TurnedNarrow(ks, c);
    RepresentsIffContents(t, m);
    TurnApply(DataTree(T), op, c);
    assert k in kt;
    hide Apply, Compare;
    ApplyRefinesMap(t, TurnedOp(op, c), kt, m);
    TurnedData(T, c);
    DataKeeps(Turned(T, c));
    assert Comparable(Turned(T, c), k);
    OrderedJoinLosesNothing(Turned(T, c), k);
    TurnDelete(T, op.key, c);
  }

  /** One operation in place. */
  method ApplyInPlace<D>(t0: TreeNode?<D>, op: Op<D>, ghost T0: Shape<D>, ghost ks: set<int32>, ghost c: int32)
    returns (t: TreeNode?<D>, ghost T: Shape<D>, ghost steps: nat)
    requires InShape(t0, T0, ks, c) && Window(ks, c) && op.key in ks
    modifies Cells(T0)
    ensures InShape(t, T, ks, c) && DataTree(T) == Apply(DataTree(T0), op)
    ensures forall c <- Cells(T) :: c in Cells(T0) || fresh(c)
    ensures steps <= 2 * OpIterations(DataTree(T0), op)
  {
    OpKeeps(T0, op, ks, c);
    hide Compare, Turned, Ordered, Splay, Insert, Delete, Iterations, LoopCount, Wrap32, JoinLosesNothing, Found,
         Partition;
    match op {
      case SplayOp(i) =>
        DataSplay(T0, i);
        LoopsPerIteration(T0, i);
        t, steps := SplayInPlace(t0, i, T0);
        T := Splay(T0, i);
      case InsertOp(i, data) =>
        DataSplay(T0, i);
        LoopsPerIteration(T0, i);
        ghost var n;
        t, n, steps := InsertInPlace(t0, i, data, T0);
        T := Insert(T0, i, n);
        DataInsert(T0, i, n, data);
      case DeleteOp(i) =>
        DataDelete(T0, i);
        LoopsPerIteration(T0, i);
        if Found(T0, i) { LoopsPerIteration(Splay(T0, i).left, i); }
        t, steps := DeleteInPlace(t0, i, T0);
        T := Delete(T0, i);
    }
  }

  /** Any run from the empty tree, over keys that fit in one half of the circle, as keys
      that span less than half the 32-bit range do: the nodes form the tree that the
      run on values yields, with exact sizes, and hold the entries of the finite map
      that the run describes, each once; the size stored in the root is the number of
      its keys; and all loops together take logarithmic time on average. */
  method RunInPlace<D>(ops: seq<Op<D>>, ghost ks: set<int32>)
    returns (t: TreeNode?<D>, ghost T: Shape<D>, ghost steps: nat)
    requires OneWindow(ks) && OpsOver(ops, ks)
    ensures Linked(t, T) && Distinct(T) && Sized(T) && (Narrow(ks) ==> Ordered(T))
    ensures DataTree(T) == Run(Nil, ops) && Contents(DataTree(T)) == RunOnMap(map[], ops)
    ensures NodesAre(DataTree(T), RunOnMap(map[], ops)) && NodeSize(t) == |RunOnMap(map[], ops)|
    ensures steps <= 2 * RunIterations(Nil, ops) <= 2 * (|ops| * (12 * Log2(|ops| + 1) + 4))
  {
    ghost var c: int32 :| Window(ks, c);
    t, T, steps := null, Nil, 0;
    EmptyInShape(T, ks, c);
    hide Cells, Linked, Sized, Distinct, InShape, DataTree, Apply, Window, Narrow;
    var k := 0;
    while k < |ops|
      invariant 0 <= k <= |ops|
      invariant InShape(t, T, ks, c) && forall n <- Cells(T) :: fresh(n)
      invariant Run(DataTree(T), ops[k..]) == Run(Nil, ops)
      invariant steps + 2 * RunIterations(DataTree(T), ops[k..]) <= 2 * RunIterations(Nil, ops)
    {
      assert ops[k..][0] == ops[k] && ops[k..][1..] == ops[k + 1..];
      ghost var more;
      t, T, more := ApplyInPlace(t, ops[k], T, ks, c);
      steps := steps + more;
      k := k + 1;
    }
    assert ops[k..] == [];
    RunResult(t, T, ops, ks, c);
  }

  lemma EmptyInShape<D>(T: Shape<D>, ks: set<int32>, c: int32)
    requires T == Nil
    ensures InShape(null, T, ks, c) && Cells(T) == {} && DataTree(T) == Nil
  {
  }

  lemma RunResult<D>(t: TreeNode?<D>, T: Shape<D>, ops: seq<Op<D>>, ks: set<int32>, c: int32)
    requires InShape(t, T, ks, c) && DataTree(T) == Run(Nil, ops) && Window(ks, c) && OpsOver(ops, ks)
    ensures Linked(t, T) && Distinct(T) && Sized(T) && (Narrow(ks) ==> Ordered(T))
    ensures NodesAre(DataTree(T), RunOnMap(map[], ops)) && Contents(DataTree(T)) == RunOnMap(map[], ops)
    ensures NodeSize(t) == |RunOnMap(map[], ops)|
    ensures RunIterations(Nil, ops) <= |ops| * (12 * Log2(|ops| + 1) + 4)
  {
    var e: Tree<D> := Nil;
    assert Keys(e) == {};
    WindowRun(ks, c, ops);
    if Narrow(ks) { RunRefinesMap(e, ops, ks); }
    LogarithmicFromEmpty(ops);
    DataKeeps(T);
    NodeSizeIsSize(t, T);
  }
}
