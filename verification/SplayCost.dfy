/**
 Amortised cost of the splay tree: with the potential below, the loop of a splay
 takes logarithmically many iterations on average over any run of operations.
 */
module SplayCost {
  import opened SplayTree

  /** Floor of the binary logarithm. */
  function Log2(n: nat): nat
    requires n > 0
  {
    if n == 1 then 0 else 1 + Log2(n / 2)
  }

  lemma {:induction false} Log2Monotone(m: nat, n: nat)
    requires 0 < m <= n
    ensures Log2(m) <= Log2(n)
  {
    if m > 1 { Log2Monotone(m / 2, n / 2); }
  }

  lemma {:induction false} Log2Sum(x: nat, y: nat)
    requires x > 0 && y > 0
    ensures 1 + Log2(x) + Log2(y) <= 2 * Log2(x + y)
  {
    if x == 1 || y == 1 {
      Log2Monotone(2, x + y);
      Log2Monotone(x, x + y);
      Log2Monotone(y, x + y);
    } else {
      Log2Sum(x / 2, y / 2);
      Log2Monotone(x / 2 + y / 2, (x + y) / 2);
    }
  }

  lemma Log2SumTo(x: nat, y: nat, z: nat)
    requires x > 0 && y > 0 && x + y == z
    ensures 1 + Log2(x) + Log2(y) <= 2 * Log2(z)
  {
    hide Log2;
    Log2Sum(x, y);
  }

  function Rank<V>(t: Tree<V>): nat {
    Log2(Size(t) + 1)
  }

  function Potential<V>(t: Tree<V>): nat {
    match t
    case Nil => 0
    case Node(l, _, _, r) => Potential(l) + Rank(t) + Potential(r)
  }

  lemma RankMonotone<V>(t: Tree<V>, u: Tree<V>)
    requires Size(t) <= Size(u)
    ensures Rank(t) <= Rank(u)
  {
    hide Size, Log2;
    Log2Monotone(Size(t) + 1, Size(u) + 1);
  }

  /** Two trees whose nodes, with one more, are those of u. */
  lemma RankSplit<V>(s: Tree<V>, t: Tree<V>, u: Tree<V>)
    requires Size(s) + Size(t) + 1 == Size(u)
    ensures 1 + Rank(s) + Rank(t) <= 2 * Rank(u)
  {
    hide Size, Log2;
    Log2SumTo(Size(s) + 1, Size(t) + 1, Size(u) + 1);
  }

  // -------------------------------------------------------------- iterations

  /** The iteration rotates before it links. */
  predicate Rotates<V>(t: Tree<V>, i: int32)
    requires t.Node?
  {
    (Compare(i, t.key) < 0 && t.left.Node? && Compare(i, t.left.key) < 0) ||
    (Compare(i, t.key) > 0 && t.right.Node? && Compare(i, t.right.key) > 0)
  }

  /** What one iteration takes apart keeps enough potential to spare; with a
      rotation it frees the rank of the child that was rotated up. */
  lemma IteratePotential<V>(t: Tree<V>, i: int32)
    requires t.Node?
    ensures var r := Iterate(t, i);
      if r.Stop? then
        Potential(r.less) + Potential(r.more) <= Potential(t)
      else
        && Size(r.side) + Size(r.rest) + 1 == Size(t)
        && Potential(r.side) + Potential(r.rest) + Rank(r.rest) <= Potential(t)
        && (Rotates(t, i) ==>
            Potential(r.side) + Potential(r.rest) + Rank(r.rest) + Rank(t) <= Potential(t) + Rank(r.side))
  {
    hide Log2, Wrap32;
    var r := Iterate(t, i);
    if Compare(i, t.key) < 0 && t.left.Node? {
      RankMonotone(t.left, t);
      RankMonotone(t.left.left, t.left);
      RankMonotone(Node(t.left.right, t.key, t.val, t.right), t);
    } else if Compare(i, t.key) > 0 && t.right.Node? {
      RankMonotone(t.right, t);
      RankMonotone(t.right.right, t.right);
      RankMonotone(Node(t.left, t.key, t.val, t.right.left), t);
    }
  }

  /** A link without rotation is followed by a link to the other side, or by the
      end of the loop. */
  lemma SingleLinkTurns<V>(t: Tree<V>, i: int32)
    requires t.Node? && !Iterate(t, i).Stop? && !Rotates(t, i)
    ensures var r := Iterate(t, i); var next := Iterate(r.rest, i);
      next.Stop? || (r.LinkRight? <==> next.LinkLeft?)
  {
  }

  lemma PartitionSize<V>(t: Tree<V>, i: int32)
    requires t.Node?
    ensures Size(Partition(t, i).less) + Size(Partition(t, i).more) + 1 == Size(t)
  {
    SplayKeeps(t, i);
  }

  ghost predicate Affordable<V>(t: Tree<V>, p: Parts<V>) {
    p.steps + 2 * Potential(p.less) + 2 * Potential(p.more) <= 2 * Potential(t) + 4 * Rank(t) + 2
  }

  lemma {:induction false} PartitionCost<V>(t: Tree<V>, i: int32)
    requires t.Node?
    ensures Affordable(t, Partition(t, i))
    decreases t
  {
    hide Log2, Wrap32;
    IteratePotential(t, i);
    PartitionSize(t, i);
    var r, p := Iterate(t, i), Partition(t, i);
    RankMonotone(p.less, t);
    RankMonotone(p.more, t);
    if !r.Stop? {
      RankMonotone(r.rest, t);
      if Rotates(t, i) {
        PartitionCost(r.rest, i);
        RankSplit(r.rest, r.side, t);
      } else {
        IteratePotential(r.rest, i);
        SingleLinkTurns(t, i);
        var next := Iterate(r.rest, i);
        if !next.Stop? {
          PartitionCost(next.rest, i);
          RankMonotone(next.rest, t);
          RankSplit(p.less, p.more, t);
        }
      }
    }
  }

  /** Number of iterations of the splay loop. */
  function Iterations<V>(t: Tree<V>, i: int32): nat {
    if t.Nil? then 0 else Partition(t, i).steps
  }

  /** One splay: its iterations and the change of potential are paid for by six
      times the logarithm of the tree's size, plus two. */
  lemma SplayCost<V>(t: Tree<V>, i: int32)
    ensures Iterations(t, i) + 2 * Potential(Splay(t, i)) <= 2 * Potential(t) + 6 * Rank(t) + 2
  {
    hide Log2, Wrap32;
    if t.Node? {
      PartitionCost(t, i);
      SplayKeeps(t, i);
    }
  }

  // -------------------------------------------------------------- operations

  /** Iterations of all splay loops an operation runs. */
  function OpIterations<V>(t: Tree<V>, op: Op<V>): nat {
    match op
    case SplayOp(i) => Iterations(t, i)
    case InsertOp(i, _) => Iterations(t, i)
    case DeleteOp(i) =>
      Iterations(t, i) +
      if t.Node? && Compare(i, Splay(t, i).key) == 0 then Iterations(Splay(t, i).left, i) else 0
  }

  lemma InsertCost<V>(t: Tree<V>, i: int32, v: V)
    ensures Iterations(t, i) + 2 * Potential(Insert(t, i, v))
         <= 2 * Potential(t) + 8 * Rank(Insert(t, i, v)) + 2
  {
    hide Log2, Wrap32;
    var u := Insert(t, i, v);
    if t.Node? {
      SplayCost(t, i);
      SplayKeeps(t, i);
      var s := Splay(t, i);
      RankMonotone(t, u);
      if Compare(i, s.key) < 0 {
        RankMonotone(u.right, s);
        assert Potential(u.right) == Rank(u.right) + Potential(s.right);
      } else if Compare(i, s.key) > 0 {
        RankMonotone(u.left, s);
        assert Potential(u.left) == Potential(s.left) + Rank(u.left);
      }
    } else {
      assert Potential(u) == Rank(u);
    }
  }

  lemma DeleteCost<V>(t: Tree<V>, i: int32)
    ensures OpIterations(t, DeleteOp(i)) + 2 * Potential(Delete(t, i)) <= 2 * Potential(t) + 12 * Rank(t) + 4
  {
    hide Log2, Partition, Wrap32, Compare;
    if t.Node? {
      SplayCost(t, i);
      SplayKeeps(t, i);
      var s := Splay(t, i);
      if Compare(i, s.key) == 0 && s.left.Node? {
        SplayCost(s.left, i);
        SplayKeeps(s.left, i);
        RankMonotone(s.left, t);
        var x := Splay(s.left, i);
        RankMonotone(Delete(t, i), t);
      }
    }
  }

  /** No tree of the run has more than n nodes. */
  predicate Bounded<V>(t: Tree<V>, ops: seq<Op<V>>, n: nat)
    decreases |ops|
  {
    Size(t) <= n && (ops != [] ==> Bounded(Apply(t, ops[0]), ops[1..], n))
  }

  function RunIterations<V>(t: Tree<V>, ops: seq<Op<V>>): nat
    decreases |ops|
  {
    if ops == [] then 0
    else OpIterations(t, ops[0]) + RunIterations(Apply(t, ops[0]), ops[1..])
  }

  lemma ApplyCost<V>(t: Tree<V>, op: Op<V>, n: nat)
    requires Size(t) <= n && Size(Apply(t, op)) <= n
    ensures OpIterations(t, op) + 2 * Potential(Apply(t, op)) <= 2 * Potential(t) + 12 * Log2(n + 1) + 4
  {
    hide Log2, Potential, Splay, Insert, Delete, Iterations, Size;
    Log2Monotone(Size(t) + 1, n + 1);
    Log2Monotone(Size(Apply(t, op)) + 1, n + 1);
    match op
    case SplayOp(i) => SplayCost(t, i);
    case InsertOp(i, v) => InsertCost(t, i, v);
    case DeleteOp(i) => DeleteCost(t, i);
  }

  lemma OneMore(m: nat, c: nat)
    ensures (m + 1) * c == c + m * c
  {
  }

  lemma {:induction false} RunCost<V>(t: Tree<V>, ops: seq<Op<V>>, n: nat)
    requires Bounded(t, ops, n)
    ensures RunIterations(t, ops) + 2 * Potential(Run(t, ops))
         <= 2 * Potential(t) + |ops| * (12 * Log2(n + 1) + 4)
    decreases |ops|
  {
    if ops != [] {
      ApplyCost(t, ops[0], n);
      RunCost(Apply(t, ops[0]), ops[1..], n);
      OneMore(|ops[1..]|, 12 * Log2(n + 1) + 4);
    }
  }

  lemma {:induction false} PotentialBound<V>(t: Tree<V>, n: nat)
    requires Size(t) <= n
    ensures Potential(t) <= Size(t) * Log2(n + 1)
  {
    if t.Node? {
      PotentialBound(t.left, n);
      PotentialBound(t.right, n);
      Log2Monotone(Size(t) + 1, n + 1);
      assert (Size(t.left) + Size(t.right) + 1) * Log2(n + 1)
          == Size(t.left) * Log2(n + 1) + Size(t.right) * Log2(n + 1) + Log2(n + 1);
    }
  }

  /** Amortised logarithmic performance: any m operations on trees of at most n
      nodes take at most (12 m + 2 n) log2(n + 1) + 4 m loop iterations, whatever
      the tree they start from; from the empty tree the 2 n falls away. */
  lemma AmortisedLogarithmic<V>(t: Tree<V>, ops: seq<Op<V>>, n: nat)
    requires Bounded(t, ops, n)
    ensures RunIterations(t, ops) <= (12 * |ops| + 2 * n) * Log2(n + 1) + 4 * |ops|
    ensures t.Nil? ==> RunIterations(t, ops) <= |ops| * (12 * Log2(n + 1) + 4)
  {
    RunCost(t, ops, n);
    PotentialBound(t, n);
    Expand(|ops|, n, Size(t), Log2(n + 1));
  }

  lemma Expand(m: nat, n: nat, s: nat, g: nat)
    requires s <= n
    ensures 2 * (s * g) + m * (12 * g + 4) <= (12 * m + 2 * n) * g + 4 * m
  {
    assert s * g <= n * g;
    assert m * (12 * g + 4) == 12 * (m * g) + 4 * m;
    assert (12 * m + 2 * n) * g == 12 * (m * g) + 2 * (n * g);
  }

  lemma InsertSize<V>(t: Tree<V>, i: int32, v: V)
    ensures Size(Insert(t, i, v)) <= Size(t) + 1
  {
    SplayKeeps(t, i);
    if t.Node? {
      var s := Splay(t, i);
      hide Partition, Compare;
      assert Size(Node(Nil, s.key, s.val, s.right)) == Size(s.right) + 1;
      assert Size(Node(s.left, s.key, s.val, Nil)) == Size(s.left) + 1;
    }
  }

  lemma DeleteSize<V>(t: Tree<V>, i: int32)
    ensures Size(Delete(t, i)) <= Size(t)
  {
    SplayKeeps(t, i);
    if t.Node? && Splay(t, i).left.Node? {
      SplayKeeps(Splay(t, i).left, i);
    }
    hide Partition, Compare;
  }

  lemma ApplySize<V>(t: Tree<V>, op: Op<V>)
    ensures Size(Apply(t, op)) <= Size(t) + 1
  {
    hide Splay, Insert, Delete, Size;
    match op
    case SplayOp(i) => SplayKeeps(t, i);
    case InsertOp(i, v) => InsertSize(t, i, v);
    case DeleteOp(i) => DeleteSize(t, i);
  }

  lemma {:induction false} AlwaysBounded<V>(t: Tree<V>, ops: seq<Op<V>>, n: nat)
    requires Size(t) + |ops| <= n
    ensures Bounded(t, ops, n)
    decreases |ops|
  {
    if ops != [] {
      ApplySize(t, ops[0]);
      AlwaysBounded(Apply(t, ops[0]), ops[1..], n);
    }
  }

  /** Any m operations on an initially empty tree take O(m log m) iterations. */
  lemma LogarithmicFromEmpty<V>(ops: seq<Op<V>>)
    ensures RunIterations(Nil, ops) <= |ops| * (12 * Log2(|ops| + 1) + 4)
  {
    var e: Tree<V> := Nil;
    AlwaysBounded(e, ops, |ops|);
    AmortisedLogarithmic(e, ops, |ops|);
  }
}
