/**
 Top-down splaying on values: what the loop of splaytree_splay computes, written
 as a recursion over the tree that is still to be dismantled, together with
 insertion and deletion. The in-place version is in module SplayHeap and is
 proved to compute exactly these functions.
 */
module SplayTree {

  type int32 = x: int | -0x8000_0000 <= x < 0x8000_0000

  /** The low 32 bits of x, read as a signed number. */
  function Wrap32(x: int): int32 {
    (x + 0x8000_0000) % 0x1_0000_0000 - 0x8000_0000
  }

  /** The comparison macro: a 32-bit subtraction, wrapping around on overflow. */
  function Compare(i: int32, j: int32): int32 {
    Wrap32(i - j)
  }

  /** The subtraction of i and j does not overflow. */
  predicate Fits(i: int32, j: int32) {
    -0x8000_0000 <= i - j < 0x8000_0000
  }

  datatype Tree<V> = Nil | Node(left: Tree<V>, key: int32, val: V, right: Tree<V>)

  /** What one iteration of the splay loop does with the tree t it looks at:
      stop, or link a node with one subtree to a side tree and go on with the
      rest. A rotation, when there is one, has already been applied. */
  datatype Iteration<V> =
    | Stop(less: Tree<V>, key: int32, val: V, more: Tree<V>)
    | LinkRight(rest: Tree<V>, key: int32, val: V, side: Tree<V>)
    | LinkLeft(side: Tree<V>, key: int32, val: V, rest: Tree<V>)

  /** What the loop leaves behind: the assembled left and right trees, the node
      it stopped at, and how many iterations it took. */
  datatype Parts<V> = Parts(less: Tree<V>, key: int32, val: V, more: Tree<V>, steps: nat)

  /** Number of nodes. */
  function Size<V>(t: Tree<V>): nat {
    match t
    case Nil => 0
    case Node(l, _, _, r) => Size(l) + Size(r) + 1
  }

  function InOrder<V>(t: Tree<V>): seq<(int32, V)> {
    match t
    case Nil => []
    case Node(l, k, v, r) => InOrder(l) + [(k, v)] + InOrder(r)
  }

  function Keys<V>(t: Tree<V>): set<int32> {
    match t
    case Nil => {}
    case Node(l, k, _, r) => Keys(l) + {k} + Keys(r)
  }

  predicate AllBelow<V>(t: Tree<V>, i: int32) {
    forall k <- Keys(t) :: k < i
  }

  predicate AllAbove<V>(t: Tree<V>, i: int32) {
    forall k <- Keys(t) :: i < k
  }

  /** Search-tree order, by the true order of the integers. */
  predicate Ordered<V>(t: Tree<V>) {
    match t
    case Nil => true
    case Node(l, k, _, r) =>
      && Ordered(l) && Ordered(r)
      && AllBelow(l, k) && AllAbove(r, k)
  }

  function Contents<V>(t: Tree<V>): map<int32, V> {
    match t
    case Nil => map[]
    case Node(l, k, v, r) => Contents(l) + Contents(r) + map[k := v]
  }

  // ---------------------------------------------------------------- splaying

  function Iterate<V>(t: Tree<V>, i: int32): (r: Iteration<V>)
    requires t.Node?
    ensures !r.Stop? ==> r.rest.Node? && r.rest < t
  {
    if Compare(i, t.key) < 0 then
      if t.left.Nil? then
        Stop(t.left, t.key, t.val, t.right)
      else if Compare(i, t.left.key) < 0 then
        var y := t.left;
        var rotated := Node(y.right, t.key, t.val, t.right);
        if y.left.Nil? then Stop(y.left, y.key, y.val, rotated)
        else LinkRight(y.left, y.key, y.val, rotated)
      else
        LinkRight(t.left, t.key, t.val, t.right)
    else if Compare(i, t.key) > 0 then
      if t.right.Nil? then
        Stop(t.left, t.key, t.val, t.right)
      else if Compare(i, t.right.key) > 0 then
        var y := t.right;
        var rotated := Node(t.left, t.key, t.val, y.left);
        if y.right.Nil? then Stop(rotated, y.key, y.val, y.right)
        else LinkLeft(rotated, y.key, y.val, y.right)
      else
        LinkLeft(t.left, t.key, t.val, t.right)
    else
      Stop(t.left, t.key, t.val, t.right)
  }

  /** The whole loop. Whatever later iterations link to a side tree ends up below
      the node linked by this one. */
  function Partition<V>(t: Tree<V>, i: int32): Parts<V>
    requires t.Node?
    decreases t
  {
    match Iterate(t, i)
    case Stop(l, k, v, r) => Parts(l, k, v, r, 1)
    case LinkRight(rest, k, v, side) =>
      var p := Partition(rest, i);
      p.(more := Node(p.more, k, v, side), steps := p.steps + 1)
    case LinkLeft(side, k, v, rest) =>
      var p := Partition(rest, i);
      p.(less := Node(side, k, v, p.less), steps := p.steps + 1)
  }

  function Splay<V>(t: Tree<V>, i: int32): Tree<V> {
    if t.Nil? then Nil
    else var p := Partition(t, i); Node(p.less, p.key, p.val, p.more)
  }

  function Insert<V>(t: Tree<V>, i: int32, v: V): Tree<V> {
    if t.Nil? then Node(Nil, i, v, Nil)
    else
      var s := Splay(t, i);
      if Compare(i, s.key) == 0 then s
      else if Compare(i, s.key) < 0 then
        Node(s.left, i, v, Node(Nil, s.key, s.val, s.right))
      else
        Node(Node(s.left, s.key, s.val, Nil), i, v, s.right)
  }

  function Delete<V>(t: Tree<V>, i: int32): Tree<V> {
    if t.Nil? then Nil
    else
      var s := Splay(t, i);
      if Compare(i, s.key) != 0 then s
      else if s.left.Nil? then s.right
      else var x := Splay(s.left, i); Node(x.left, x.key, x.val, s.right)
  }

  // ------------------------------------------------------------- comparison

  /** The subtraction orders two keys correctly exactly when it does not
      overflow. */
  lemma CompareIsOrderIffFits(i: int32, j: int32)
    ensures ((Compare(i, j) < 0 <==> i < j) && (Compare(i, j) == 0 <==> i == j)) <==> Fits(i, j)
    ensures Fits(i, j) ==> Compare(i, j) == i - j
  {
  }

  /** The keys span less than half of the 32-bit range. */
  predicate Narrow(ks: set<int32>) {
    forall i <- ks, j <- ks :: i - j < 0x8000_0000
  }

  // ------------------------------------- what splaying keeps, for every order

  /** A tree with the same nodes in the same order as the result of an iteration. */
  function Reassembled<V>(r: Iteration<V>): Tree<V> {
    match r
    case Stop(l, k, v, m) => Node(l, k, v, m)
    case LinkRight(rest, k, v, side) => Node(rest, k, v, side)
    case LinkLeft(side, k, v, rest) => Node(side, k, v, rest)
  }

  lemma RotationInOrder<V>(a: Tree<V>, y: (int32, V), b: Tree<V>, x: (int32, V), c: Tree<V>)
    ensures InOrder(Node(Node(a, y.0, y.1, b), x.0, x.1, c)) == InOrder(Node(a, y.0, y.1, Node(b, x.0, x.1, c)))
  {
    assert InOrder(a) + [y] + InOrder(b) + [x] + InOrder(c) == InOrder(a) + [y] + (InOrder(b) + [x] + InOrder(c));
  }

  lemma IterateInOrder<V>(t: Tree<V>, i: int32)
    requires t.Node?
    ensures InOrder(Reassembled(Iterate(t, i))) == InOrder(t)
  {
    hide InOrder, Compare;
    if t.left.Node? {
      var y := t.left;
      RotationInOrder(y.left, (y.key, y.val), y.right, (t.key, t.val), t.right);
    }
    if t.right.Node? {
      var y := t.right;
      RotationInOrder(t.left, (t.key, t.val), y.left, (y.key, y.val), y.right);
    }
  }

  /** The in-order sequence survives every rotation, every link and the final
      assembly, whatever the comparisons answer. */
  lemma {:induction false} SplayInOrder<V>(t: Tree<V>, i: int32)
    ensures InOrder(Splay(t, i)) == InOrder(t)
    decreases t
  {
    hide Iterate, Wrap32;
    if t.Node? {
      IterateInOrder(t, i);
      var r := Iterate(t, i);
      if !r.Stop? {
        SplayInOrder(r.rest, i);
        var p := Partition(r.rest, i);
        var node, side, mid := [(r.key, r.val)], InOrder(r.side), [(p.key, p.val)];
        if r.LinkRight? {
          assert InOrder(p.less) + mid + (InOrder(p.more) + node + side)
              == (InOrder(p.less) + mid + InOrder(p.more)) + node + side;
        } else {
          assert (side + node + InOrder(p.less)) + mid + InOrder(p.more)
              == side + node + (InOrder(p.less) + mid + InOrder(p.more));
        }
      }
    }
  }

  // ------------------------------------------- what the in-order sequence says

  predicate Increasing<V>(s: seq<(int32, V)>) {
    forall a, b :: 0 <= a < b < |s| ==> s[a].0 < s[b].0
  }

  lemma {:induction false} SizeIsLength<V>(t: Tree<V>)
    ensures Size(t) == |InOrder(t)|
  {
    if t.Node? {
      SizeIsLength(t.left);
      SizeIsLength(t.right);
    }
  }

  ghost predicate HasKey<V>(s: seq<(int32, V)>, k: int32) {
    exists a :: 0 <= a < |s| && s[a].0 == k
  }

  lemma HasKeyPieces<V>(l: seq<(int32, V)>, m: (int32, V), r: seq<(int32, V)>, k: int32)
    ensures HasKey(l + [m] + r, k) <==> HasKey(l, k) || m.0 == k || HasKey(r, k)
  {
    var s := l + [m] + r;
    if HasKey(l, k) {
      var a :| 0 <= a < |l| && l[a].0 == k;
      assert s[a].0 == k;
    }
    assert s[|l|] == m;
    if HasKey(r, k) {
      var b :| 0 <= b < |r| && r[b].0 == k;
      assert s[|l| + 1 + b].0 == k;
    }
  }

  /** The keys are the first components of the in-order sequence. */
  lemma {:induction false} KeysOfInOrder<V>(t: Tree<V>, k: int32)
    ensures k in Keys(t) <==> HasKey(InOrder(t), k)
  {
    if t.Node? {
      KeysOfInOrder(t.left, k);
      KeysOfInOrder(t.right, k);
      HasKeyPieces(InOrder(t.left), (t.key, t.val), InOrder(t.right), k);
    }
  }

  lemma BelowIffInOrder<V>(t: Tree<V>, k: int32)
    ensures AllBelow(t, k) <==> forall a :: 0 <= a < |InOrder(t)| ==> InOrder(t)[a].0 < k
    ensures AllAbove(t, k) <==> forall a :: 0 <= a < |InOrder(t)| ==> k < InOrder(t)[a].0
  {
    forall k' <- Keys(t)
      ensures exists a :: 0 <= a < |InOrder(t)| && InOrder(t)[a].0 == k'
    {
      KeysOfInOrder(t, k');
    }
    forall a | 0 <= a < |InOrder(t)|
      ensures InOrder(t)[a].0 in Keys(t)
    {
      KeysOfInOrder(t, InOrder(t)[a].0);
    }
  }

  lemma {:induction false} OrderedIffIncreasing<V>(t: Tree<V>)
    ensures Ordered(t) <==> Increasing(InOrder(t))
  {
    if t.Node? {
      OrderedIffIncreasing(t.left);
      OrderedIffIncreasing(t.right);
      BelowIffInOrder(t.left, t.key);
      BelowIffInOrder(t.right, t.key);
      IncreasingPieces(InOrder(t.left), (t.key, t.val), InOrder(t.right));
    }
  }

  lemma IncreasingPieces<V>(l: seq<(int32, V)>, m: (int32, V), r: seq<(int32, V)>)
    ensures Increasing(l + [m] + r) <==>
      && Increasing(l) && Increasing(r)
      && (forall a :: 0 <= a < |l| ==> l[a].0 < m.0)
      && (forall b :: 0 <= b < |r| ==> m.0 < r[b].0)
  {
    var s := l + [m] + r;
    if Increasing(s) {
      assert s[|l|] == m;
      assert forall a :: 0 <= a < |l| ==> l[a] == s[a];
      assert forall b :: 0 <= b < |r| ==> r[b] == s[|l| + 1 + b];
    }
  }

  /** Every node of t is an entry of m. */
  predicate Within<V(==)>(t: Tree<V>, m: map<int32, V>) {
    t.Node? ==> Within(t.left, m) && t.key in m && m[t.key] == t.val && Within(t.right, m)
  }

  lemma {:induction false} WithinIffEntries<V>(t: Tree<V>, m: map<int32, V>)
    ensures Within(t, m) <==>
      forall a :: 0 <= a < |InOrder(t)| ==> InOrder(t)[a].0 in m && m[InOrder(t)[a].0] == InOrder(t)[a].1
  {
    if t.Node? {
      WithinIffEntries(t.left, m);
      WithinIffEntries(t.right, m);
      var s, n := InOrder(t), |InOrder(t.left)|;
      assert forall a :: 0 <= a < n ==> InOrder(t.left)[a] == s[a];
      assert s[n] == (t.key, t.val);
      assert forall b :: 0 <= b < |InOrder(t.right)| ==> InOrder(t.right)[b] == s[n + 1 + b];
    }
  }

  lemma {:induction false} WithinLarger<V>(t: Tree<V>, m: map<int32, V>, m': map<int32, V>)
    requires Within(t, m)
    requires forall k <- Keys(t) :: k in m && k in m' && m'[k] == m[k]
    ensures Within(t, m')
  {
    if t.Node? {
      assert t.key in Keys(t);
      WithinLarger(t.left, m, m');
      WithinLarger(t.right, m, m');
    }
  }

  /** A tree whose nodes all have different keys, in order or not. */
  predicate KeysDiffer<V>(t: Tree<V>) {
    t.Node? ==>
      && KeysDiffer(t.left) && KeysDiffer(t.right)
      && t.key !in Keys(t.left) && t.key !in Keys(t.right) && Keys(t.left) !! Keys(t.right)
  }

  lemma {:induction false} OrderedKeysDiffer<V>(t: Tree<V>)
    requires Ordered(t)
    ensures KeysDiffer(t)
  {
    if t.Node? {
      OrderedKeysDiffer(t.left);
      OrderedKeysDiffer(t.right);
    }
  }

  /** With different keys the contents are exactly the nodes. */
  lemma {:induction false} ContentsIfDifferent<V>(t: Tree<V>)
    requires KeysDiffer(t)
    ensures Contents(t).Keys == Keys(t) && Within(t, Contents(t))
  {
    if t.Node? {
      ContentsIfDifferent(t.left);
      ContentsIfDifferent(t.right);
      WithinLarger(t.left, Contents(t.left), Contents(t));
      WithinLarger(t.right, Contents(t.right), Contents(t));
    }
  }

  lemma ContentsAreNodes<V>(t: Tree<V>)
    requires Ordered(t)
    ensures Contents(t).Keys == Keys(t) && Within(t, Contents(t))
  {
    OrderedKeysDiffer(t);
    ContentsIfDifferent(t);
  }

  lemma {:induction false} WithinDetermines<V>(t: Tree<V>, m: map<int32, V>, m': map<int32, V>, k: int32)
    requires Within(t, m) && Within(t, m') && k in Keys(t)
    ensures k in m && k in m' && m[k] == m'[k]
  {
    if k in Keys(t.left) {
      WithinDetermines(t.left, m, m', k);
    } else if k in Keys(t.right) {
      WithinDetermines(t.right, m, m', k);
    }
  }

  /** t is an ordered tree whose nodes are the entries of m. */
  ghost predicate Represents<V>(t: Tree<V>, m: map<int32, V>) {
    Ordered(t) && m.Keys == Keys(t) && Within(t, m)
  }

  lemma RepresentsIffContents<V>(t: Tree<V>, m: map<int32, V>)
    ensures Represents(t, m) <==> Ordered(t) && Contents(t) == m
  {
    if Ordered(t) {
      ContentsAreNodes(t);
      if Represents(t, m) {
        forall k <- m.Keys
          ensures Contents(t)[k] == m[k]
        {
          WithinDetermines(t, m, Contents(t), k);
        }
      }
    }
  }

  /** Trees with the same in-order sequence have the same keys and order, and
      represent the same maps. */
  lemma SameInOrder<V>(t: Tree<V>, u: Tree<V>)
    requires InOrder(t) == InOrder(u)
    ensures Keys(t) == Keys(u) && Size(t) == Size(u)
    ensures Ordered(t) <==> Ordered(u)
    ensures forall m: map<int32, V> :: Represents(t, m) <==> Represents(u, m)
  {
    forall k: int32 ensures k in Keys(t) <==> k in Keys(u) {
      KeysOfInOrder(t, k);
      KeysOfInOrder(u, k);
    }
    assert Keys(t) == Keys(u);
    SizeIsLength(t);
    SizeIsLength(u);
    OrderedIffIncreasing(t);
    OrderedIffIncreasing(u);
    forall m: map<int32, V> ensures Within(t, m) <==> Within(u, m) {
      WithinIffEntries(t, m);
      WithinIffEntries(u, m);
    }
  }

  lemma UnionSize(a: set<int32>, k: int32, b: set<int32>)
    requires k !in a && k !in b && a !! b
    ensures |a + {k} + b| == |a| + 1 + |b|
  {
  }

  lemma {:induction false} DifferentKeysCount<V>(t: Tree<V>)
    requires KeysDiffer(t)
    ensures Size(t) == |Keys(t)|
  {
    if t.Node? {
      DifferentKeysCount(t.left);
      DifferentKeysCount(t.right);
      UnionSize(Keys(t.left), t.key, Keys(t.right));
    }
  }

  lemma SizeIsCardinality<V>(t: Tree<V>)
    requires Ordered(t)
    ensures |Keys(t)| == Size(t)
  {
    OrderedKeysDiffer(t);
    DifferentKeysCount(t);
  }

  lemma SplayKeeps<V>(t: Tree<V>, i: int32)
    ensures InOrder(Splay(t, i)) == InOrder(t)
    ensures Keys(Splay(t, i)) == Keys(t) && Size(Splay(t, i)) == Size(t)
    ensures Ordered(Splay(t, i)) <==> Ordered(t)
    ensures forall m: map<int32, V> :: Represents(t, m) <==> Represents(Splay(t, i), m)
  {
    SplayInOrder(t, i);
    SameInOrder(t, Splay(t, i));
  }

  // ------------------------------------------------ which node reaches the root

  /** The last node an ordinary binary search for i visits. */
  function LastVisited<V>(t: Tree<V>, i: int32): (int32, V)
    requires t.Node?
  {
    if Compare(i, t.key) < 0 && t.left.Node? then LastVisited(t.left, i)
    else if Compare(i, t.key) > 0 && t.right.Node? then LastVisited(t.right, i)
    else (t.key, t.val)
  }

  /** The node at the root after a splay is the last one before NULL that a
      normal binary search would have reached, whatever the comparisons answer. */
  lemma {:induction false} SplayRootIsLastVisited<V>(t: Tree<V>, i: int32)
    requires t.Node?
    ensures (Splay(t, i).key, Splay(t, i).val) == LastVisited(t, i)
    decreases t
  {
    var r := Iterate(t, i);
    if !r.Stop? {
      SplayRootIsLastVisited(r.rest, i);
    }
  }

  /** No comparison of i with a key of t overflows. */
  predicate Comparable<V>(t: Tree<V>, i: int32) {
    forall k <- Keys(t) :: Fits(i, k)
  }

  lemma RotatedAbove<V>(t: Tree<V>, i: int32)
    requires t.Node? && Ordered(t) && t.left.Node? && i < t.left.key
    ensures AllAbove(Node(t.left.right, t.key, t.val, t.right), i)
    ensures Ordered(t.left.left) && Keys(t.left.left) <= Keys(t)
  {
    var y, r := t.left, Node(t.left.right, t.key, t.val, t.right);
    assert t.left.key in Keys(t.left);
    assert Ordered(y) && AllAbove(y.right, y.key) && AllAbove(t.right, t.key);
    forall k <- Keys(r) ensures i < k {
      assert k in Keys(y.right) || k == t.key || k in Keys(t.right);
    }
  }

  lemma RotatedBelow<V>(t: Tree<V>, i: int32)
    requires t.Node? && Ordered(t) && t.right.Node? && t.right.key < i
    ensures AllBelow(Node(t.left, t.key, t.val, t.right.left), i)
    ensures Ordered(t.right.right) && Keys(t.right.right) <= Keys(t)
  {
    var y, l := t.right, Node(t.left, t.key, t.val, t.right.left);
    assert t.right.key in Keys(t.right);
    assert Ordered(y) && AllBelow(y.left, y.key) && AllBelow(t.left, t.key);
    forall k <- Keys(l) ensures k < i {
      assert k in Keys(t.left) || k == t.key || k in Keys(y.left);
    }
  }

  /** One iteration puts larger nodes to the right and smaller ones to the left. */
  lemma IterateSeparates<V>(t: Tree<V>, i: int32)
    requires t.Node? && Ordered(t) && Comparable(t, i)
    ensures var r := Iterate(t, i);
      if r.Stop? then AllBelow(r.less, i) && AllAbove(r.more, i)
      else
        && Keys(r.rest) <= Keys(t) && Ordered(r.rest)
        && if r.LinkRight? then i < r.key && AllAbove(r.side, i) else r.key < i && AllBelow(r.side, i)
  {
    hide Wrap32;
    assert t.key in Keys(t);
    CompareIsOrderIffFits(i, t.key);
    if i < t.key && t.left.Node? {
      assert t.left.key in Keys(t.left);
      CompareIsOrderIffFits(i, t.left.key);
      if i < t.left.key { RotatedAbove(t, i); }
    } else if t.key < i && t.right.Node? {
      assert t.right.key in Keys(t.right);
      CompareIsOrderIffFits(i, t.right.key);
      if t.right.key < i { RotatedBelow(t, i); }
    }
  }

  /** The node the loop stops at separates the smaller keys from the larger
      ones: everything linked to the left is below i, to the right above i. */
  lemma {:induction false} SplaySeparates<V>(t: Tree<V>, i: int32)
    requires t.Node? && Ordered(t) && Comparable(t, i)
    ensures AllBelow(Splay(t, i).left, i) && AllAbove(Splay(t, i).right, i)
    decreases t
  {
    IterateSeparates(t, i);
    var r := Iterate(t, i);
    if !r.Stop? {
      SplaySeparates(r.rest, i);
    }
  }

  /** A present key is splayed to the root; for an absent key the root is its
      in-order predecessor or successor. */
  lemma SplayRootIsNeighbour<V>(t: Tree<V>, i: int32)
    requires t.Node? && Ordered(t) && Comparable(t, i)
    ensures var r := Splay(t, i).key;
      && r in Keys(t)
      && (i in Keys(t) <==> r == i)
      && (r < i ==> forall k <- Keys(t) :: k <= r || i < k)
      && (i < r ==> forall k <- Keys(t) :: k < i || r <= k)
  {
    hide Partition, Wrap32;
    SplayKeeps(t, i);
    SplaySeparates(t, i);
    assert Keys(t) == Keys(Splay(t, i).left) + {Splay(t, i).key} + Keys(Splay(t, i).right);
  }

  // -------------------------------------------------- insertion and deletion

  function InsertIntoMap<V>(m: map<int32, V>, i: int32, v: V): map<int32, V> {
    if i in m then m else m[i := v]
  }

  lemma SingleRepresents<V>(i: int32, v: V)
    ensures Represents(Node(Nil, i, v, Nil), map[i := v])
  {
    var e: Tree<V> := Nil;
    assert Keys(e) == {} && AllBelow(e, i) && AllAbove(e, i);
    assert Keys(Node(e, i, v, e)) == {i};
  }

  lemma SplitBelow<V>(s: Tree<V>, i: int32, v: V, m: map<int32, V>)
    requires s.Node? && Represents(s, m) && i < s.key && AllBelow(s.left, i)
    ensures Represents(Node(s.left, i, v, Node(Nil, s.key, s.val, s.right)), m[i := v])
  {
    var r := Node(Nil, s.key, s.val, s.right);
    assert Keys(r) == {s.key} + Keys(s.right);
    WithinLarger(s.left, m, m[i := v]);
    WithinLarger(r, m, m[i := v]);
  }

  lemma SplitAbove<V>(s: Tree<V>, i: int32, v: V, m: map<int32, V>)
    requires s.Node? && Represents(s, m) && s.key < i && AllAbove(s.right, i)
    ensures Represents(Node(Node(s.left, s.key, s.val, Nil), i, v, s.right), m[i := v])
  {
    var l := Node(s.left, s.key, s.val, Nil);
    assert Keys(l) == Keys(s.left) + {s.key};
    WithinLarger(s.right, m, m[i := v]);
    WithinLarger(l, m, m[i := v]);
  }

  /** Insertion adds the key only if it is absent and keeps the old data
      otherwise. */
  lemma InsertRefinesMap<V>(t: Tree<V>, i: int32, v: V, m: map<int32, V>)
    requires Represents(t, m) && Comparable(t, i)
    ensures Represents(Insert(t, i, v), InsertIntoMap(m, i, v))
  {
    if t.Node? {
      SplayKeeps(t, i);
      SplaySeparates(t, i);
      SplayRootIsNeighbour(t, i);
      var s := Splay(t, i);
      CompareIsOrderIffFits(i, s.key);
      assert s.key in Keys(s);
      hide Splay, Compare;
      if i < s.key {
        SplitBelow(s, i, v, m);
      } else if s.key < i {
        SplitAbove(s, i, v, m);
      }
    } else {
      SingleRepresents(i, v);
      assert m == map[];
    }
  }

  /** An ordinary binary search ends at a node with key i. */
  predicate SearchFinds<V>(t: Tree<V>, i: int32) {
    t.Node? && Compare(i, LastVisited(t, i).0) == 0
  }

  /** After an insertion the node with the key is the root, whatever the comparisons
      answer: the one that was found, with all others as before, or a new one between
      those before it and those after it. */
  lemma InsertRoot<V>(t: Tree<V>, i: int32, v: V)
    ensures var u := Insert(t, i, v);
      && u.Node? && Compare(i, u.key) == 0
      && if SearchFinds(t, i) then (u.key, u.val) == LastVisited(t, i) && InOrder(u) == InOrder(t)
         else (u.key, u.val) == (i, v) && InOrder(u.left) + InOrder(u.right) == InOrder(t)
  {
    SameKeyCompares(i);
    if t.Node? {
      SplayInOrder(t, i);
      SplayRootIsLastVisited(t, i);
      var s := Splay(t, i);
      hide Partition, Compare;
      var e: Tree<V> := Nil;
      assert InOrder(e) == [];
      assert InOrder(Node(e, s.key, s.val, s.right)) == [(s.key, s.val)] + InOrder(s.right);
      assert InOrder(Node(s.left, s.key, s.val, e)) == InOrder(s.left) + [(s.key, s.val)];
      assert InOrder(s.left) + ([(s.key, s.val)] + InOrder(s.right)) == InOrder(s);
    }
  }

  lemma SameKeyCompares(i: int32)
    ensures Compare(i, i) == 0
  {
  }

  /** When every key is below i, splaying by i leaves nothing right of the root. */
  lemma {:induction false} SplayAboveAll<V>(t: Tree<V>, i: int32)
    requires t.Node? && Comparable(t, i) && AllBelow(t, i)
    ensures Splay(t, i).right == Nil
    decreases t
  {
    assert t.key in Keys(t);
    CompareIsOrderIffFits(i, t.key);
    if t.right.Node? {
      assert t.right.key in Keys(t);
      CompareIsOrderIffFits(i, t.right.key);
      if t.right.right.Node? {
        SplayAboveAll(t.right.right, i);
      }
    }
  }

  /** Joining two trees around a root taken from the left one. */
  lemma JoinRepresents<V>(x: Tree<V>, i: int32, r: Tree<V>, v: V, m: map<int32, V>)
    requires x.Node? && x.right.Nil? && Represents(Node(x, i, v, r), m)
    ensures Represents(Node(x.left, x.key, x.val, r), m - {i})
  {
    assert Ordered(x) && Within(x, m) && Within(r, m) && Keys(x) == Keys(x.left) + {x.key};
    WithinLarger(x, m, m - {i});
    WithinLarger(r, m, m - {i});
  }

  lemma ReplaceLeft<V>(t: Tree<V>, l: Tree<V>, m: map<int32, V>)
    requires t.Node? && Represents(t, m) && InOrder(l) == InOrder(t.left)
    ensures Represents(Node(l, t.key, t.val, t.right), m)
  {
    SameInOrder(t.left, l);
    WithinIffEntries(t.left, m);
    WithinIffEntries(l, m);
  }

  /** Deletion removes exactly the given key; the second splay returns a root
      without right child, so that joining the two halves loses nothing. */
  lemma DeleteRefinesMap<V>(t: Tree<V>, i: int32, m: map<int32, V>)
    requires Represents(t, m) && Comparable(t, i)
    ensures Represents(Delete(t, i), m - {i})
  {
    if t.Node? {
      SplayKeeps(t, i);
      SplaySeparates(t, i);
      SplayRootIsNeighbour(t, i);
      var s := Splay(t, i);
      CompareIsOrderIffFits(i, s.key);
      if s.key != i {
        assert m - {i} == m;
      } else if s.left.Nil? {
        WithinLarger(s.right, m, m - {i});
      } else {
        SplayInOrder(s.left, i);
        SplayAboveAll(s.left, i);
        ReplaceLeft(s, Splay(s.left, i), m);
        JoinRepresents(Splay(s.left, i), i, s.right, s.val, m);
      }
    }
  }

  /** A deletion, whatever the comparisons answer: a and b are what comes before and
      after the node found. With nothing before it, what comes after is left; otherwise
      it stays as it is below the new root, which is one of the nodes before; in an
      ordered tree without overflow it is the last of them. */
  lemma DeleteRoot<V>(t: Tree<V>, i: int32) returns (a: seq<(int32, V)>, b: seq<(int32, V)>)
    ensures !SearchFinds(t, i) ==> InOrder(Delete(t, i)) == InOrder(t)
    ensures SearchFinds(t, i) ==>
      var u := Delete(t, i);
      && InOrder(t) == a + [LastVisited(t, i)] + b
      && (a == [] ==> InOrder(u) == b)
      && (a != [] ==>
          && u.Node? && InOrder(u.right) == b && InOrder(u.left) + [(u.key, u.val)] <= a
          && (Ordered(t) && Comparable(t, i) ==> InOrder(u.left) + [(u.key, u.val)] == a))
  {
    a, b := [], [];
    if t.Node? {
      SplayInOrder(t, i);
      SplayRootIsLastVisited(t, i);
      var s := Splay(t, i);
      if Compare(i, s.key) == 0 {
        a, b := InOrder(s.left), InOrder(s.right);
        if s.left.Node? {
          SplayInOrder(s.left, i);
          var x := Splay(s.left, i);
          assert InOrder(x) == (InOrder(x.left) + [(x.key, x.val)]) + InOrder(x.right);
          if Ordered(t) && Comparable(t, i) {
            SplayKeeps(t, i);
            SplaySeparates(t, i);
            SplayAboveAll(s.left, i);
            assert InOrder(x.right) == [];
          }
        }
      }
      hide Partition, Compare;
    }
  }

  // ------------------------------------------------------------------- runs

  datatype Op<V> = SplayOp(key: int32) | InsertOp(key: int32, val: V) | DeleteOp(key: int32)

  function Apply<V>(t: Tree<V>, op: Op<V>): Tree<V> {
    match op
    case SplayOp(i) => Splay(t, i)
    case InsertOp(i, v) => Insert(t, i, v)
    case DeleteOp(i) => Delete(t, i)
  }

  function ApplyToMap<V>(m: map<int32, V>, op: Op<V>): map<int32, V> {
    match op
    case SplayOp(_) => m
    case InsertOp(i, v) => InsertIntoMap(m, i, v)
    case DeleteOp(i) => m - {i}
  }

  function Run<V>(t: Tree<V>, ops: seq<Op<V>>): Tree<V>
    decreases |ops|
  {
    if ops == [] then t else Run(Apply(t, ops[0]), ops[1..])
  }

  function RunOnMap<V>(m: map<int32, V>, ops: seq<Op<V>>): map<int32, V>
    decreases |ops|
  {
    if ops == [] then m else RunOnMap(ApplyToMap(m, ops[0]), ops[1..])
  }

  predicate OpsOver<V>(ops: seq<Op<V>>, ks: set<int32>) {
    forall a :: 0 <= a < |ops| ==> ops[a].key in ks
  }

  lemma ApplyRefinesMap<V>(t: Tree<V>, op: Op<V>, ks: set<int32>, m: map<int32, V>)
    requires Represents(t, m) && Narrow(ks) && Keys(t) <= ks && op.key in ks
    ensures Represents(Apply(t, op), ApplyToMap(m, op)) && Keys(Apply(t, op)) <= ks
  {
    match op
    case SplayOp(i) => SplayKeeps(t, i);
    case InsertOp(i, v) => InsertRefinesMap(t, i, v, m);
    case DeleteOp(i) => DeleteRefinesMap(t, i, m);
  }

  lemma {:induction false} RunRepresents<V>(t: Tree<V>, ops: seq<Op<V>>, ks: set<int32>, m: map<int32, V>)
    requires Represents(t, m) && Narrow(ks) && Keys(t) <= ks && OpsOver(ops, ks)
    ensures Represents(Run(t, ops), RunOnMap(m, ops))
    decreases |ops|
  {
    if ops != [] {
      ApplyRefinesMap(t, ops[0], ks, m);
      RunRepresents(Apply(t, ops[0]), ops[1..], ks, ApplyToMap(m, ops[0]));
    }
  }

  /** Every run of splays, insertions and deletions over a narrow set of keys,
      from any ordered tree, behaves as the same run on a finite map, and the tree
      stays ordered with as many nodes as the map has keys. */
  lemma RunRefinesMap<V>(t: Tree<V>, ops: seq<Op<V>>, ks: set<int32>)
    requires Ordered(t) && Narrow(ks) && Keys(t) <= ks && OpsOver(ops, ks)
    ensures Ordered(Run(t, ops))
    ensures Contents(Run(t, ops)) == RunOnMap(Contents(t), ops)
    ensures Size(Run(t, ops)) == |RunOnMap(Contents(t), ops)|
  {
    var m := Contents(t);
    RepresentsIffContents(t, m);
    RunRepresents(t, ops, ks, m);
    RepresentsIffContents(Run(t, ops), RunOnMap(m, ops));
    SizeIsCardinality(Run(t, ops));
    assert |RunOnMap(m, ops)| == |RunOnMap(m, ops).Keys|;
  }

  /** Two keys half the range apart are enough to break the order. */
  lemma WideKeysBreakOrder<V>(i: int32, j: int32, v: V)
    requires i - j >= 0x8000_0000
    ensures !Ordered(Run(Nil, [InsertOp(j, v), InsertOp(i, v)]))
  {
    var t := Node(Nil, j, v, Nil);
    assert Compare(i, j) == i - j - 0x1_0000_0000 < 0;
    assert Splay(t, i) == t;
    var u := Node(Nil, i, v, Node(Nil, j, v, Nil));
    assert Insert(t, i, v) == u;
    var ops := [InsertOp(j, v), InsertOp(i, v)];
    assert ops[1..] == [InsertOp(i, v)];
    assert Run(t, [InsertOp(i, v)]) == Run(u, []);
    assert j in Keys(u.right);
  }

  /** Order is kept by every run over a set of keys exactly when that set is
      narrow. */
  lemma OrderKeptIffNarrow<V(!new)>(ks: set<int32>, v: V)
    ensures (forall ops: seq<Op<V>> :: OpsOver(ops, ks) ==> Ordered(Run(Nil, ops))) <==> Narrow(ks)
  {
    if Narrow(ks) {
      forall ops: seq<Op<V>> | OpsOver(ops, ks)
        ensures Ordered(Run(Nil, ops))
      {
        RunRefinesMap(Nil, ops, ks);
      }
    } else {
      var i: int, j: int :| i in ks && j in ks && i - j >= 0x8000_0000;
      WideKeysBreakOrder(i, j, v);
      assert OpsOver([InsertOp(j, v), InsertOp(i, v)], ks);
    }
  }

  // ------------------------------------------------------------------- ranks

  /** The node with r nodes to its left, found by walking down with the help of
      the subtree sizes. */
  function Select<V>(t: Tree<V>, r: int): (int32, V)
    requires 0 <= r < Size(t)
  {
    if r < Size(t.left) then Select(t.left, r)
    else if r > Size(t.left) then Select(t.right, r - Size(t.left) - 1)
    else (t.key, t.val)
  }

  lemma {:induction false} SelectIsInOrder<V>(t: Tree<V>, r: int)
    requires 0 <= r < Size(t)
    ensures Size(t) == |InOrder(t)| && Select(t, r) == InOrder(t)[r]
  {
    SizeIsLength(t);
    SizeIsLength(t.left);
    if r < Size(t.left) {
      SelectIsInOrder(t.left, r);
    } else if r > Size(t.left) {
      SelectIsInOrder(t.right, r - Size(t.left) - 1);
    }
  }
}
