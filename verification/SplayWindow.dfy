/**
 For which sets of keys the tree works, exactly. The comparison orders keys around a
 circle; the tree behaves as a finite map in every run if and only if the keys fit
 in one half of it.
 */
module SplayWindow {
  import opened SplayTree
  import opened SplayHeap

  /** The keys span less than half of the circle, counted upwards from c. */
  predicate Window(ks: set<int32>, c: int32) {
    forall k <- ks :: Compare(k, c) >= 0
  }

  ghost predicate OneWindow(ks: set<int32>) {
    exists c: int32 :: Window(ks, c)
  }

  // ---------------------------------------------------------- turning the circle

  lemma WrapTwice(x: int, y: int)
    ensures Wrap32(Wrap32(x) - Wrap32(y)) == Wrap32(x - y)
  {
    var m, h := 0x1_0000_0000, 0x8000_0000;
    var p, q := (x + h) / m, (y + h) / m;
    assert x == Wrap32(x) + p * m && y == Wrap32(y) + q * m;
    WrapShift(Wrap32(x) - Wrap32(y), p - q);
    assert Wrap32(x) - Wrap32(y) + (p - q) * m == x - y;
  }

  lemma WrapShift(x: int, q: int)
    ensures Wrap32(x + q * 0x1_0000_0000) == Wrap32(x)
  {
    var m, h := 0x1_0000_0000, 0x8000_0000;
    var r, p := (x + h) % m, (x + h) / m;
    assert x + h + q * m == r + (p + q) * m;
    Remainder(x + h + q * m, p + q, r);
  }

  lemma Remainder(y: int, q: int, r: int)
    requires y == r + q * 0x1_0000_0000 && 0 <= r < 0x1_0000_0000
    ensures y % 0x1_0000_0000 == r
  {
  }

  /** Counting all keys from c changes no comparison. */
  lemma TurnKeepsCompare(i: int32, j: int32, c: int32)
    ensures Compare(Compare(i, c), Compare(j, c)) == Compare(i, j)
  {
    WrapTwice(i - c, j - c);
    assert i - c - (j - c) == i - j;
  }

  lemma CompareZero(i: int32, j: int32)
    ensures Compare(i, j) == 0 <==> i == j
  {
  }

  /** Different keys stay different. */
  lemma TurnInjective(i: int32, j: int32, c: int32)
    ensures Compare(i, c) == Compare(j, c) <==> i == j
  {
    TurnKeepsCompare(i, j, c);
    CompareZero(i, j);
    CompareZero(Compare(i, c), Compare(j, c));
  }

  /** The tree with all keys counted from c. */
  function Turned<V>(t: Tree<V>, c: int32): Tree<V> {
    match t
    case Nil => Nil
    case Node(l, k, v, r) => Node(Turned(l, c), Compare(k, c), v, Turned(r, c))
  }

  function TurnedOp<V>(op: Op<V>, c: int32): Op<V> {
    match op
    case SplayOp(i) => SplayOp(Compare(i, c))
    case InsertOp(i, v) => InsertOp(Compare(i, c), v)
    case DeleteOp(i) => DeleteOp(Compare(i, c))
  }

  function TurnedOps<V>(ops: seq<Op<V>>, c: int32): (r: seq<Op<V>>)
    ensures |r| == |ops| && forall a :: 0 <= a < |ops| ==> r[a] == TurnedOp(ops[a], c)
  {
    if ops == [] then [] else [TurnedOp(ops[0], c)] + TurnedOps(ops[1..], c)
  }

  lemma TurnIterate<V>(t: Tree<V>, i: int32, c: int32)
    requires t.Node?
    ensures var r, u := Iterate(t, i), Iterate(Turned(t, c), Compare(i, c));
      if r.Stop? then u == Stop(Turned(r.less, c), Compare(r.key, c), r.val, Turned(r.more, c))
      else if r.LinkRight? then u == LinkRight(Turned(r.rest, c), Compare(r.key, c), r.val, Turned(r.side, c))
      else u == LinkLeft(Turned(r.side, c), Compare(r.key, c), r.val, Turned(r.rest, c))
  {
    TurnKeepsCompare(i, t.key, c);
    if t.left.Node? {
      TurnKeepsCompare(i, t.left.key, c);
      assert t.left.left.Node? <==> Turned(t.left.left, c).Node?;
    }
    if t.right.Node? {
      TurnKeepsCompare(i, t.right.key, c);
      assert t.right.right.Node? <==> Turned(t.right.right, c).Node?;
    }
    hide Compare;
  }

  lemma {:induction false} TurnPartition<V>(t: Tree<V>, i: int32, c: int32)
    requires t.Node?
    ensures var p := Partition(t, i);
      Partition(Turned(t, c), Compare(i, c)) ==
      Parts(Turned(p.less, c), Compare(p.key, c), p.val, Turned(p.more, c), p.steps)
    decreases t
  {
    hide Compare;
    TurnIterate(t, i, c);
    var r := Iterate(t, i);
    if !r.Stop? {
      TurnPartition(r.rest, i, c);
    }
  }

  lemma TurnSplay<V>(t: Tree<V>, i: int32, c: int32)
    ensures Splay(Turned(t, c), Compare(i, c)) == Turned(Splay(t, i), c)
  {
    if t.Node? { TurnPartition(t, i, c); }
    hide Partition, Compare;
  }

  lemma TurnInsert<V>(t: Tree<V>, i: int32, v: V, c: int32)
    ensures Insert(Turned(t, c), Compare(i, c), v) == Turned(Insert(t, i, v), c)
  {
    TurnSplay(t, i, c);
    assert t.Node? ==> Splay(t, i).Node?;
    if t.Node? { TurnKeepsCompare(i, Splay(t, i).key, c); }
    hide Splay, Compare;
    var e: Tree<V> := Nil;
    assert Turned(e, c) == Nil;
    if t.Node? {
      var s := Splay(t, i);
      assert Turned(Node(e, s.key, s.val, s.right), c) == Node(Nil, Compare(s.key, c), s.val, Turned(s.right, c));
      assert Turned(Node(s.left, s.key, s.val, e), c) == Node(Turned(s.left, c), Compare(s.key, c), s.val, Nil);
    } else {
      assert Turned(Node(e, i, v, e), c) == Node(Nil, Compare(i, c), v, Nil);
    }
  }

  lemma TurnDelete<V>(t: Tree<V>, i: int32, c: int32)
    ensures Delete(Turned(t, c), Compare(i, c)) == Turned(Delete(t, i), c)
    ensures JoinLosesNothing(Turned(t, c), Compare(i, c)) <==> JoinLosesNothing(t, i)
  {
    TurnSplay(t, i, c);
    assert t.Node? ==> Splay(t, i).Node?;
    if t.Node? {
      var s := Splay(t, i);
      TurnKeepsCompare(i, s.key, c);
      TurnSplay(s.left, i, c);
      assert s.left.Node? ==> Splay(s.left, i).Node?;
    }
    hide Splay, Compare;
  }

  lemma TurnApply<V>(t: Tree<V>, op: Op<V>, c: int32)
    ensures Apply(Turned(t, c), TurnedOp(op, c)) == Turned(Apply(t, op), c)
  {
    match op
    case SplayOp(i) => TurnSplay(t, i, c);
    case InsertOp(i, v) => TurnInsert(t, i, v, c);
    case DeleteOp(i) => TurnDelete(t, i, c);
  }

  lemma {:induction false} TurnRun<V>(t: Tree<V>, ops: seq<Op<V>>, c: int32)
    ensures Run(Turned(t, c), TurnedOps(ops, c)) == Turned(Run(t, ops), c)
    decreases |ops|
  {
    if ops != [] {
      TurnApply(t, ops[0], c);
      hide Apply, Compare;
      TurnRun(Apply(t, ops[0]), ops[1..], c);
    }
  }

  // -------------------------------------------------- behaving as a finite map

  /** The nodes are the entries of the map, each once. */
  ghost predicate NodesAre<V>(t: Tree<V>, m: map<int32, V>) {
    Keys(t) == m.Keys && Within(t, m) && Size(t) == |m|
  }

  /** m', counted from c, is m. */
  ghost predicate TurnedMap<V>(m: map<int32, V>, m': map<int32, V>, c: int32) {
    forall k: int32 ::
      (k in m <==> Compare(k, c) in m') && (k in m ==> m'[Compare(k, c)] == m[k])
  }

  lemma TurnedMapApply<V>(m: map<int32, V>, m': map<int32, V>, op: Op<V>, c: int32)
    requires TurnedMap(m, m', c)
    ensures TurnedMap(ApplyToMap(m, op), ApplyToMap(m', TurnedOp(op, c)), c)
  {
    forall k: int32 ensures Compare(k, c) == Compare(op.key, c) <==> k == op.key {
      TurnInjective(k, op.key, c);
    }
    hide Compare;
  }

  lemma {:induction false} TurnedMapRun<V>(m: map<int32, V>, m': map<int32, V>, ops: seq<Op<V>>, c: int32)
    requires TurnedMap(m, m', c)
    ensures TurnedMap(RunOnMap(m, ops), RunOnMap(m', TurnedOps(ops, c)), c)
    decreases |ops|
  {
    if ops != [] {
      TurnedMapApply(m, m', ops[0], c);
      hide TurnedMap, ApplyToMap;
      TurnedMapRun(ApplyToMap(m, ops[0]), ApplyToMap(m', TurnedOp(ops[0], c)), ops[1..], c);
    }
  }

  lemma {:induction false} TurnedKeys<V>(t: Tree<V>, k: int32, c: int32)
    ensures k in Keys(t) <==> Compare(k, c) in Keys(Turned(t, c))
  {
    if t.Node? {
      TurnedKeys(t.left, k, c);
      TurnedKeys(t.right, k, c);
      TurnInjective(k, t.key, c);
    }
    hide Compare;
  }

  lemma {:induction false} TurnedSize<V>(t: Tree<V>, c: int32)
    ensures Size(Turned(t, c)) == Size(t)
  {
    if t.Node? {
      TurnedSize(t.left, c);
      TurnedSize(t.right, c);
    }
  }

  lemma {:induction false} TurnedWithin<V>(t: Tree<V>, m: map<int32, V>, m': map<int32, V>, c: int32)
    requires TurnedMap(m, m', c)
    ensures Within(Turned(t, c), m') <==> Within(t, m)
  {
    hide Compare;
    if t.Node? {
      TurnedWithin(t.left, m, m', c);
      TurnedWithin(t.right, m, m', c);
    }
  }

  lemma {:induction false} TurnedKeysDiffer<V>(t: Tree<V>, c: int32)
    requires Ordered(Turned(t, c))
    ensures KeysDiffer(t)
  {
    hide Compare;
    if t.Node? {
      TurnedKeysDiffer(t.left, c);
      TurnedKeysDiffer(t.right, c);
      forall k: int32
        ensures k in Keys(t.left) ==> Compare(k, c) in Keys(Turned(t.left, c))
        ensures k in Keys(t.right) ==> Compare(k, c) in Keys(Turned(t.right, c))
      {
        TurnedKeys(t.left, k, c);
        TurnedKeys(t.right, k, c);
      }
    }
  }

  lemma NodesAreContents<V>(t: Tree<V>, m: map<int32, V>)
    requires NodesAre(t, m) && KeysDiffer(t)
    ensures Contents(t) == m
  {
    ContentsIfDifferent(t);
    forall k <- m.Keys ensures Contents(t)[k] == m[k] {
      WithinDetermines(t, m, Contents(t), k);
    }
  }

  lemma TurnedNodes<V>(t: Tree<V>, m: map<int32, V>, m': map<int32, V>, c: int32)
    requires TurnedMap(m, m', c) && Represents(Turned(t, c), m')
    ensures NodesAre(t, m) && Contents(t) == m
  {
    forall k: int32 ensures k in Keys(t) <==> k in m {
      TurnedKeys(t, k, c);
    }
    assert Keys(t) == m.Keys;
    TurnedWithin(t, m, m', c);
    TurnedKeysDiffer(t, c);
    DifferentKeysCount(t);
    assert |m| == |m.Keys|;
    NodesAreContents(t, m);
  }

  /** All keys of the turned set. */
  function TurnedSet(ks: set<int32>, c: int32): set<int32> {
    set k <- ks :: Compare(k, c)
  }

  lemma TurnedNarrow(ks: set<int32>, c: int32)
    requires Window(ks, c)
    ensures Narrow(TurnedSet(ks, c))
  {
    hide Compare;
  }

  lemma WindowRun<V>(ks: set<int32>, c: int32, ops: seq<Op<V>>)
    requires Window(ks, c) && OpsOver(ops, ks)
    ensures Represents(Turned(Run(Nil, ops), c), RunOnMap(map[], TurnedOps(ops, c)))
    ensures NodesAre(Run(Nil, ops), RunOnMap(map[], ops)) && Contents(Run(Nil, ops)) == RunOnMap(map[], ops)
    ensures Keys(Turned(Run(Nil, ops), c)) <= TurnedSet(ks, c)
  {
    var e: Tree<V>, m: map<int32, V>, kt, ops' := Nil, map[], TurnedSet(ks, c), TurnedOps(ops, c);
    TurnedNarrow(ks, c);
    hide Compare;
    assert OpsOver(ops', kt) by {
      forall a | 0 <= a < |ops'| ensures ops'[a].key in kt { assert ops[a].key in ks; }
    }
    assert Turned(e, c) == e && Keys(e) == {} && Represents(e, m);
    TurnRun(e, ops, c);
    TurnedMapRun(m, m, ops, c);
    RunRepresents(e, ops', kt, m);
    RunKeys(e, ops', kt);
    TurnedNodes(Run(e, ops), RunOnMap(m, ops), RunOnMap(m, ops'), c);
  }

  /** Runs bring in no other keys. */
  lemma {:induction false} RunKeys<V>(t: Tree<V>, ops: seq<Op<V>>, ks: set<int32>)
    requires Keys(t) <= ks && OpsOver(ops, ks) && Narrow(ks) && Ordered(t)
    ensures Keys(Run(t, ops)) <= ks
    decreases |ops|
  {
    if ops != [] {
      RepresentsIffContents(t, Contents(t));
      ApplyRefinesMap(t, ops[0], ks, Contents(t));
      RunKeys(Apply(t, ops[0]), ops[1..], ks);
    }
  }

  /** Keys in increasing order, less than half the range apart, are in a window. */
  lemma NarrowFits(ks: set<int32>)
    requires Narrow(ks)
    ensures OneWindow(ks)
  {
    forall i <- ks, j <- ks ensures Compare(i, j) == i - j {
      CompareIsOrderIffFits(i, j);
    }
    WindowIffNoObstacle(ks);
    hide Compare;
  }

  // ------------------------------------------------- sets that do not fit

  /** Half the circle apart: each of the two keys comes before the other. */
  predicate Opposite(i: int32, j: int32) {
    Compare(i, j) < 0 && Compare(j, i) < 0
  }

  /** Each key comes after the one before it, all around the circle. */
  predicate Cycle(a: int32, b: int32, d: int32) {
    Compare(b, a) > 0 && Compare(d, b) > 0 && Compare(a, d) > 0
  }

  predicate NoOpposite(ks: set<int32>) {
    forall i <- ks, j <- ks :: !Opposite(i, j)
  }

  predicate NoCycle(ks: set<int32>) {
    forall a <- ks, b <- ks, d <- ks :: !Cycle(a, b, d)
  }

  lemma CompareBack(i: int32, j: int32)
    ensures Compare(i, j) > 0 ==> Compare(j, i) < 0
    ensures Compare(i, j) < 0 && !Opposite(i, j) ==> Compare(j, i) > 0
  {
  }

  /** Without obstacles there is a first key. */
  lemma {:induction false} First(ks: set<int32>) returns (c: int32)
    requires ks != {} && NoOpposite(ks) && NoCycle(ks)
    ensures c in ks && Window(ks, c)
    decreases |ks|
  {
    var x: int32 :| x in ks;
    var rest := ks - {x};
    CompareZero(x, x);
    if rest == {} {
      c := x;
      forall k <- ks ensures k == x {
        assert k in rest || k == x;
      }
    } else {
      var c' := First(rest);
      CompareBack(x, c');
      CompareZero(x, c');
      c := if Compare(x, c') >= 0 then c' else x;
      forall k <- ks ensures Compare(k, c) >= 0 {
        if c == x && k != x {
          assert k in rest && !Cycle(x, c', k);
          CompareZero(k, c');
          CompareZero(x, k);
          CompareBack(x, k);
        }
      }
    }
  }

  /** The two obstacles to fitting in a window. */
  lemma WindowIffNoObstacle(ks: set<int32>)
    ensures OneWindow(ks) <==> NoOpposite(ks) && NoCycle(ks)
  {
    if ks == {} { assert Window(ks, 0); }
    if c: int32 :| Window(ks, c) {
      forall i <- ks, j <- ks
        ensures Compare(i, j) == Compare(i, c) - Compare(j, c)
      {
        TurnKeepsCompare(i, j, c);
        CompareIsOrderIffFits(Compare(i, c), Compare(j, c));
      }
      hide Compare;
    } else if NoOpposite(ks) && NoCycle(ks) {
      var c := First(ks);
    }
  }

  // --------------------------------------------- runs that fail on an obstacle

  function Leaf<V>(i: int32, v: V): Tree<V> {
    Node(Nil, i, v, Nil)
  }

  lemma InsertFirst<V>(i: int32, v: V)
    ensures Insert(Nil, i, v) == Leaf(i, v)
  {
  }

  /** A key that comes after the root of a tree without right subtree goes on top. */
  lemma InsertAfter<V>(t: Tree<V>, i: int32, v: V)
    requires t.Node? && t.right.Nil? && Compare(i, t.key) > 0
    ensures Insert(t, i, v) == Node(t, i, v, Nil)
  {
  }

  lemma InsertBefore<V>(t: Tree<V>, i: int32, v: V)
    requires t.Node? && t.left.Nil? && Compare(i, t.key) < 0
    ensures Insert(t, i, v) == Node(Nil, i, v, t)
  {
  }

  lemma RunThree<V>(t: Tree<V>, ops: seq<Op<V>>)
    requires |ops| >= 3
    ensures Run(t, ops) == Run(Apply(Apply(Apply(t, ops[0]), ops[1]), ops[2]), ops[3..])
  {
    hide Apply;
    assert ops[1..][1..] == ops[2..] && ops[2..][1..] == ops[3..];
    assert Run(t, ops) == Run(Apply(t, ops[0]), ops[1..]);
    assert Run(Apply(t, ops[0]), ops[1..]) == Run(Apply(Apply(t, ops[0]), ops[1]), ops[2..]);
  }

  lemma RunOne<V>(t: Tree<V>, op: Op<V>)
    ensures Run(t, [op]) == Apply(t, op) && Run(t, []) == t
  {
    assert [op][1..] == [];
  }

  /** The first of three keys in a cycle is not found again, and is inserted twice. */
  function CycleOps<V>(a: int32, b: int32, d: int32, v: V): seq<Op<V>> {
    [InsertOp(a, v), InsertOp(b, v), InsertOp(d, v), InsertOp(a, v)]
  }

  lemma CycleRun<V>(a: int32, b: int32, d: int32, v: V)
    requires Cycle(a, b, d)
    ensures Run(Nil, CycleOps(a, b, d, v)) == Node(Node(Node(Leaf(a, v), b, v, Nil), d, v, Nil), a, v, Nil)
    ensures Size(Run(Nil, CycleOps(a, b, d, v))) == 4
  {
    var e: Tree<V> := Nil;
    var t1, ops := Leaf(a, v), CycleOps(a, b, d, v);
    var t2 := Node(t1, b, v, e);
    var t3 := Node(t2, d, v, e);
    InsertFirst(a, v);
    InsertAfter(t1, b, v);
    InsertAfter(t2, d, v);
    InsertAfter(t3, a, v);
    hide Insert, Compare;
    RunThree(e, ops);
    assert ops[3..] == [InsertOp(a, v)];
    RunOne(t3, InsertOp(a, v));
    assert Size(t1) == 1 && Size(t2) == 2 && Size(t3) == 3;
  }

  /** Of two opposite keys, neither is found below the other. */
  function OppositeOps<V>(i: int32, j: int32, v: V): seq<Op<V>> {
    [InsertOp(i, v), InsertOp(j, v), InsertOp(i, v)]
  }

  lemma OppositeRun<V>(i: int32, j: int32, v: V)
    requires Opposite(i, j)
    ensures Run(Nil, OppositeOps(i, j, v)) == Node(Nil, i, v, Node(Nil, j, v, Leaf(i, v)))
    ensures Size(Run(Nil, OppositeOps(i, j, v))) == 3
  {
    var e: Tree<V> := Nil;
    var t1, ops := Leaf(i, v), OppositeOps(i, j, v);
    var t2 := Node(e, j, v, t1);
    InsertFirst(i, v);
    InsertBefore(t1, j, v);
    InsertBefore(t2, i, v);
    hide Insert, Compare;
    RunThree(e, ops);
    assert ops[3..] == [];
    RunOne(Node(e, i, v, t2), SplayOp(i));
    assert Size(t1) == 1 && Size(t2) == 2;
  }

  lemma MapOfOps<V>(ops: seq<Op<V>>, ks: set<int32>)
    requires OpsOver(ops, ks)
    ensures |RunOnMap(map[], ops)| <= |ks|
  {
    MapRunKeys(map[], ops, ks);
    var m := RunOnMap(map[], ops);
    assert |m| == |m.Keys|;
    Smaller(m.Keys, ks);
  }

  lemma {:induction false} MapRunKeys<V>(m: map<int32, V>, ops: seq<Op<V>>, ks: set<int32>)
    requires m.Keys <= ks && OpsOver(ops, ks)
    ensures RunOnMap(m, ops).Keys <= ks
    decreases |ops|
  {
    if ops != [] {
      MapRunKeys(ApplyToMap(m, ops[0]), ops[1..], ks);
    }
  }

  lemma {:induction false} Smaller(a: set<int32>, b: set<int32>)
    requires a <= b
    ensures |a| <= |b|
    decreases |a|
  {
    if x: int32 :| x in a {
      Smaller(a - {x}, b - {x});
    }
  }

  /** The run of the tree behaves as the run on a finite map. */
  ghost predicate RunIsMap<V>(ops: seq<Op<V>>) {
    NodesAre(Run(Nil, ops), RunOnMap(map[], ops))
  }

  /** In every run over a set of keys the nodes are the entries of the finite map, each
      once, if and only if the keys fit in one half of the circle. */
  lemma MapKeptIffOneWindow<V(!new)>(ks: set<int32>, v: V)
    ensures (forall ops: seq<Op<V>> :: OpsOver(ops, ks) ==> RunIsMap(ops)) <==> OneWindow(ks)
  {
    if c: int32 :| Window(ks, c) {
      forall ops: seq<Op<V>> | OpsOver(ops, ks) ensures RunIsMap(ops) {
        WindowRun(ks, c, ops);
      }
    } else {
      var ops := SomeRunDiffers(ks, v);
    }
  }

  lemma SomeRunDiffers<V>(ks: set<int32>, v: V) returns (ops: seq<Op<V>>)
    requires !OneWindow(ks)
    ensures OpsOver(ops, ks) && !RunIsMap(ops)
  {
    WindowIffNoObstacle(ks);
    hide OneWindow, Compare, Run, RunOnMap, Within;
    if !NoOpposite(ks) {
      var i: int32, j: int32 :| i in ks && j in ks && Opposite(i, j);
      ops := OppositeOps(i, j, v);
      OppositeRun(i, j, v);
      MapOfOps(ops, {i, j});
      assert |{i, j}| <= 2;
    } else {
      var a: int32, b: int32, d: int32 :| a in ks && b in ks && d in ks && Cycle(a, b, d);
      ops := CycleOps(a, b, d, v);
      CycleRun(a, b, d, v);
      MapOfOps(ops, {a, b, d});
      assert |{a, b, d}| <= 3;
    }
  }

  // -------------------------------------------- joins that lose nothing, exactly

  /** Splaying, one iteration at a time. */
  lemma SplayStep<V>(t: Tree<V>, i: int32)
    requires t.Node?
    ensures var r := Iterate(t, i);
      if r.Stop? then Splay(t, i) == Node(r.less, r.key, r.val, r.more)
      else
        var s := Splay(r.rest, i);
        && s.Node?
        && Splay(t, i) ==
           if r.LinkRight? then Node(s.left, s.key, s.val, Node(s.right, r.key, r.val, r.side))
           else Node(Node(r.side, r.key, r.val, s.left), s.key, s.val, s.right)
  {
    hide Iterate;
  }

  /** The search for i ends on the right edge of t: it goes right from every node until
      it stops at one without right subtree. */
  predicate EndsAtRightEdge<V>(t: Tree<V>, i: int32) {
    t.Node? ==>
      if Compare(i, t.key) > 0 then EndsAtRightEdge(t.right, i)
      else t.right.Nil? && (Compare(i, t.key) == 0 || t.left.Nil?)
  }

  lemma {:induction false} RightEmptyIff<V>(t: Tree<V>, i: int32)
    requires t.Node?
    ensures Splay(t, i).right.Nil? <==> EndsAtRightEdge(t, i)
    decreases t
  {
    hide Wrap32;
    SplayStep(t, i);
    var r := Iterate(t, i);
    if Compare(i, t.key) > 0 && t.right.Node? && Compare(i, t.right.key) > 0 {
      assert EndsAtRightEdge(t, i) == EndsAtRightEdge(t.right, i) == EndsAtRightEdge(t.right.right, i);
    }
    if !r.Stop? {
      RightEmptyIff(r.rest, i);
    }
    hide Splay;
  }

  /** The join of a deletion loses nothing exactly when the search for the key in the
      left subtree of its node ends at the right edge. */
  lemma JoinLosesNothingIff<V>(t: Tree<V>, i: int32)
    ensures JoinLosesNothing(t, i) <==> (Found(t, i) ==> EndsAtRightEdge(Splay(t, i).left, i))
  {
    if Found(t, i) && Splay(t, i).left.Node? {
      RightEmptyIff(Splay(t, i).left, i);
    }
    hide Splay;
  }

  ghost predicate JoinsKept<V(!new)>(ks: set<int32>) {
    forall ops: seq<Op<V>>, k: int32 :: OpsOver(ops, ks) && k in ks ==> JoinLosesNothing(Run(Nil, ops), k)
  }

  /** Below the key p, a second node with that key is left of a smaller one. */
  function LosingTree<V>(p: int32, q: int32, v: V): Tree<V> {
    Node(Node(Leaf(p, v), q, v, Nil), p, v, Nil)
  }

  lemma LosingTreeLoses<V>(p: int32, q: int32, v: V)
    requires Compare(p, q) < 0
    ensures !JoinLosesNothing(LosingTree(p, q, v), p)
    ensures Delete(LosingTree(p, q, v), p) == Leaf(p, v)
  {
    var t := LosingTree(p, q, v);
    CompareZero(p, p);
    SplayStep(t, p);
    SplayStep(t.left, p);
    SplayStep(Leaf(p, v), p);
    hide Compare, Partition;
    assert Splay(t, p) == t;
    assert Splay(t.left, p) == Node(Nil, p, v, Leaf(q, v));
  }

  /** Deleting d and looking for it once more, with d after q and before p. */
  lemma LosingEnd<V>(t: Tree<V>, p: int32, q: int32, d: int32, v: V)
    requires Compare(d, q) > 0 && Compare(d, p) < 0
    requires Splay(t, d) == Node(Node(Leaf(p, v), q, v, Nil), d, v, Leaf(p, v))
    ensures Splay(Delete(t, d), d) == LosingTree(p, q, v)
  {
    var l, u := Node(Leaf(p, v), q, v, Nil), Node(Leaf(p, v), q, v, Leaf(p, v));
    CompareZero(d, d);
    assert t.Node?;
    SplayStep(l, d);
    SplayStep(u, d);
    SplayStep(Leaf(p, v), d);
    hide Compare, Partition;
    assert Splay(l, d) == l;
    assert Delete(t, d) == u;
    assert Splay(u, d) == LosingTree(p, q, v);
  }

  function LosingOps<V>(first: seq<Op<V>>, d: int32): seq<Op<V>> {
    first + [DeleteOp(d), SplayOp(d)]
  }

  lemma {:induction false} RunConcat<V>(t: Tree<V>, ops: seq<Op<V>>, more: seq<Op<V>>)
    ensures Run(t, ops + more) == Run(Run(t, ops), more)
    decreases |ops|
  {
    hide Apply;
    if ops == [] {
      assert ops + more == more;
    } else {
      assert (ops + more)[1..] == ops[1..] + more;
      RunConcat(Apply(t, ops[0]), ops[1..], more);
    }
  }

  lemma RunTwo<V>(t: Tree<V>, d: int32)
    ensures Run(t, [DeleteOp(d), SplayOp(d)]) == Splay(Delete(t, d), d)
  {
    var ops: seq<Op<V>> := [DeleteOp(d), SplayOp(d)];
    assert ops[1..] == [SplayOp(d)];
    RunOne(Delete(t, d), SplayOp(d));
    hide Splay, Delete;
  }

  lemma CycleLoses<V>(a: int32, b: int32, d: int32, v: V) returns (ops: seq<Op<V>>)
    requires Cycle(a, b, d)
    ensures OpsOver(ops, {a, b, d}) && !JoinLosesNothing(Run(Nil, ops), a)
  {
    ops := LosingOps(CycleOps(a, b, d, v), d);
    CycleRun(a, b, d, v);
    RunConcat(Nil, CycleOps(a, b, d, v), [DeleteOp(d), SplayOp(d)]);
    var t := Run(Nil, CycleOps(a, b, d, v));
    RunTwo(t, d);
    CompareBack(a, d);
    CompareBack(b, a);
    CompareZero(d, d);
    SplayStep(t, d);
    SplayStep(t.left, d);
    hide Compare, Run, Partition;
    assert Splay(t, d) == Node(Node(Leaf(a, v), b, v, Nil), d, v, Leaf(a, v));
    LosingEnd(t, a, b, d, v);
    LosingTreeLoses(a, b, v);
  }

  lemma InsertBetween<V>(i: int32, j: int32, x: int32, v: V)
    requires Compare(x, i) > 0 && Compare(x, j) < 0
    ensures Insert(Node(Nil, i, v, Node(Nil, j, v, Leaf(i, v))), x, v)
         == Node(Leaf(i, v), x, v, Node(Nil, j, v, Leaf(i, v)))
  {
    var t: Tree<V> := Node(Nil, i, v, Node(Nil, j, v, Leaf(i, v)));
    SplayStep(t, x);
    SplayStep(t.right, x);
    hide Compare, Partition;
  }

  lemma OppositeLoses<V>(i: int32, j: int32, x: int32, v: V) returns (ops: seq<Op<V>>)
    requires Opposite(i, j) && Compare(x, i) > 0 && Compare(j, x) > 0
    ensures OpsOver(ops, {i, j, x}) && !JoinLosesNothing(Run(Nil, ops), i)
  {
    var first := OppositeOps(i, j, v) + [InsertOp(x, v)];
    ops := LosingOps(first, j);
    OppositeRun(i, j, v);
    RunConcat(Nil, OppositeOps(i, j, v), [InsertOp(x, v)]);
    RunOne(Run(Nil, OppositeOps(i, j, v)), InsertOp(x, v));
    RunConcat(Nil, first, [DeleteOp(j), SplayOp(j)]);
    var t := Run(Nil, first);
    RunTwo(t, j);
    CompareBack(j, x);
    CompareBack(x, i);
    CompareZero(j, j);
    InsertBetween(i, j, x, v);
    SplayStep(t, j);
    SplayStep(t.right, j);
    hide Compare, Run, Insert, Partition;
    assert t == Node(Leaf(i, v), x, v, Node(Nil, j, v, Leaf(i, v)));
    assert Splay(t, j) == Node(Node(Leaf(i, v), x, v, Nil), j, v, Leaf(i, v));
    LosingEnd(t, i, x, j, v);
    LosingTreeLoses(i, x, v);
  }

  /** A third key lies on one of the two ways around the circle. */
  lemma ThirdKey(i: int32, j: int32, x: int32)
    requires Opposite(i, j) && x != i && x != j
    ensures (Compare(x, i) > 0 && Compare(j, x) > 0) || (Compare(x, j) > 0 && Compare(i, x) > 0)
  {
  }

  /** With three or more keys that do not fit, some run makes a deletion lose nodes. */
  lemma SomeJoinLoses<V>(ks: set<int32>, v: V) returns (ops: seq<Op<V>>, k: int32)
    requires !OneWindow(ks) && |ks| >= 3
    ensures OpsOver(ops, ks) && k in ks && !JoinLosesNothing(Run(Nil, ops), k)
  {
    WindowIffNoObstacle(ks);
    if !NoOpposite(ks) {
      var i: int32, j: int32 :| i in ks && j in ks && Opposite(i, j);
      Smaller(ks, {i, j} + (ks - {i, j}));
      if ks - {i, j} == {} { Smaller(ks, {i, j}); }
      var x: int32 :| x in ks - {i, j};
      ThirdKey(i, j, x);
      hide Compare, Run, JoinLosesNothing;
      if Compare(x, i) > 0 && Compare(j, x) > 0 {
        k := i;
        ops := OppositeLoses(i, j, x, v);
      } else {
        k := j;
        ops := OppositeLoses(j, i, x, v);
      }
    } else {
      var a: int32, b: int32, d: int32 :| a in ks && b in ks && d in ks && Cycle(a, b, d);
      hide Compare, Run, JoinLosesNothing;
      k := a;
      ops := CycleLoses(a, b, d, v);
    }
  }

  /** No key comes after another one. */
  predicate NoneAfter(ks: set<int32>) {
    forall i <- ks, j <- ks :: Compare(i, j) <= 0
  }

  /** The tree is a list along its right pointers. */
  predicate RightList<V>(t: Tree<V>) {
    t.Node? ==> t.left.Nil? && RightList(t.right)
  }

  lemma {:induction false} ListRun<V>(t: Tree<V>, ops: seq<Op<V>>, ks: set<int32>)
    requires NoneAfter(ks) && OpsOver(ops, ks) && RightList(t) && Keys(t) <= ks
    ensures RightList(Run(t, ops)) && Keys(Run(t, ops)) <= ks
    decreases |ops|
  {
    if ops != [] {
      ListApply(t, ops[0], ks);
      ListRun(Apply(t, ops[0]), ops[1..], ks);
    }
  }

  lemma ListSplay<V>(t: Tree<V>, i: int32, ks: set<int32>)
    requires NoneAfter(ks) && i in ks && RightList(t) && Keys(t) <= ks
    ensures Splay(t, i) == t
  {
    assert t.Node? ==> t.key in Keys(t);
    hide Compare;
  }

  lemma ListApply<V>(t: Tree<V>, op: Op<V>, ks: set<int32>)
    requires NoneAfter(ks) && op.key in ks && RightList(t) && Keys(t) <= ks
    ensures RightList(Apply(t, op)) && Keys(Apply(t, op)) <= ks
  {
    ListSplay(t, op.key, ks);
    assert t.Node? ==> t.key in Keys(t);
    hide Compare, Splay;
    if t.Node? {
      var r := Node(Nil, t.key, t.val, t.right);
      assert RightList(r) && Keys(r) == {t.key} + Keys(t.right);
    }
  }

  /** Two keys that do not fit in a window are opposite. */
  lemma TwoKeys(ks: set<int32>)
    requires !OneWindow(ks) && |ks| <= 2
    ensures NoneAfter(ks)
  {
    WindowIffNoObstacle(ks);
    if !NoOpposite(ks) {
      var i: int32, j: int32 :| i in ks && j in ks && Opposite(i, j);
      CompareZero(i, i);
      CompareZero(j, j);
      assert i != j;
      forall k <- ks ensures k == i || k == j {
        if k != i && k != j {
          assert |{i, j, k}| == 3;
          Smaller({i, j, k}, ks);
        }
      }
    } else {
      var a: int32, b: int32, d: int32 :| a in ks && b in ks && d in ks && Cycle(a, b, d);
      CompareBack(b, a);
      CompareBack(d, b);
      CompareBack(a, d);
      assert |{a, b, d}| == 3;
      Smaller({a, b, d}, ks);
    }
  }

  /** No deletion in any run over a set of keys loses a node, so that the stored sizes
      stay exact, if and only if the keys fit in one half of the circle or there are
      at most two of them. */
  lemma JoinsKeptIff<V(!new)>(ks: set<int32>, v: V)
    ensures JoinsKept<V>(ks) <==> OneWindow(ks) || |ks| <= 2
  {
    if c: int32 :| Window(ks, c) {
      forall ops: seq<Op<V>>, k: int32 | OpsOver(ops, ks) && k in ks
        ensures JoinLosesNothing(Run(Nil, ops), k)
      {
        WindowJoin(ks, c, ops, k);
      }
    } else if |ks| <= 2 {
      TwoKeys(ks);
      forall ops: seq<Op<V>>, k: int32 | OpsOver(ops, ks) && k in ks
        ensures JoinLosesNothing(Run(Nil, ops), k)
      {
        ListRun(Nil, ops, ks);
        ListSplay(Run(Nil, ops), k, ks);
      }
    } else {
      var ops, k := SomeJoinLoses(ks, v);
    }
  }

  lemma WindowJoin<V>(ks: set<int32>, c: int32, ops: seq<Op<V>>, k: int32)
    requires Window(ks, c) && OpsOver(ops, ks) && k in ks
    ensures JoinLosesNothing(Run(Nil, ops), k)
  {
    var t: Tree<V> := Run(Nil, ops);
    WindowRun(ks, c, ops);
    TurnDelete(t, k, c);
    forall i <- Keys(Turned(t, c)) ensures Fits(Compare(k, c), i) {
      assert Compare(k, c) in TurnedSet(ks, c) && i in TurnedSet(ks, c);
      TurnedNarrow(ks, c);
    }
    OrderedJoinLosesNothing(Turned(t, c), Compare(k, c));
  }
}
