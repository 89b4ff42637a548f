/**
 The splay tree as the program keeps it: nodes with left, right and size fields
 that are rewritten in place. A ghost tree describes the shape below a node; its
 values are the heap nodes themselves.
 */
module SplayHeap {
  import opened SplayTree

  class TreeNode<D> {
    var left: TreeNode?<D>
    var right: TreeNode?<D>
    const key: int32
    var size: int
    const data: D

    constructor (key: int32, data: D)
      ensures this.key == key && this.data == data && left == null && right == null
    {
      this.key, this.data := key, data;
      left, right, size := null, null, 0;
    }
  }

  type Shape<D> = Tree<TreeNode<D>>

  /** The macro splaytree_size. */
  function NodeSize<D>(n: TreeNode?<D>): int
    reads n
  {
    if n == null then 0 else n.size
  }

  ghost function Cells<D>(t: Shape<D>): set<TreeNode<D>> {
    match t
    case Nil => {}
    case Node(l, _, v, r) => Cells(l) + {v} + Cells(r)
  }

  /** No heap node occurs twice. */
  ghost predicate Distinct<D>(t: Shape<D>) {
    match t
    case Nil => true
    case Node(l, _, v, r) =>
      && Distinct(l) && Distinct(r)
      && v !in Cells(l) && v !in Cells(r) && Cells(l) !! Cells(r)
  }

  /** The pointers below n form the tree t. */
  ghost predicate Linked<D>(n: TreeNode?<D>, t: Shape<D>)
    reads Cells(t)`left, Cells(t)`right
  {
    match t
    case Nil => n == null
    case Node(l, k, v, r) => n == v && v.key == k && Linked(v.left, l) && Linked(v.right, r)
  }

  /** Every stored size is the number of nodes below. */
  ghost predicate Sized<D>(t: Shape<D>)
    reads Cells(t)`size
  {
    t.Node? ==> t.val.size == Size(t) && Sized(t.left) && Sized(t.right)
  }

  predicate RootIs<D>(n: TreeNode?<D>, t: Shape<D>) {
    n == if t.Nil? then null else t.val
  }

  lemma NodeSizeIsSize<D>(n: TreeNode?<D>, t: Shape<D>)
    requires Linked(n, t) && Sized(t)
    ensures NodeSize(n) == Size(t)
  {
  }

  // ------------------------------------------------------------------ spines

  /** The dangling path of nodes linked so far to one of the side trees, deepest
      node last, each with its finished subtree. The flag d, where it occurs, is
      true for the left tree, whose spine runs along right pointers. */
  datatype Spine<V> = Top | Below(up: Spine<V>, key: int32, val: V, side: Tree<V>)

  ghost function SpineCells<D>(sp: Spine<TreeNode<D>>): set<TreeNode<D>> {
    match sp
    case Top => {}
    case Below(up, _, v, s) => SpineCells(up) + {v} + Cells(s)
  }

  ghost predicate SpineDistinct<D>(sp: Spine<TreeNode<D>>) {
    match sp
    case Top => true
    case Below(up, _, v, s) =>
      && SpineDistinct(up) && Distinct(s) && v !in Cells(s)
      && v !in SpineCells(up) && Cells(s) !! SpineCells(up)
  }

  function SpineSize<V>(sp: Spine<V>): nat {
    match sp
    case Top => 0
    case Below(up, _, _, s) => SpineSize(up) + 1 + Size(s)
  }

  /** The tree that results from hanging x below the spine. */
  function Plug<V>(sp: Spine<V>, x: Tree<V>, d: bool): Tree<V> {
    match sp
    case Top => x
    case Below(up, k, v, s) => Plug(up, if d then Node(s, k, v, x) else Node(x, k, v, s), d)
  }

  function Down<D>(n: TreeNode<D>, d: bool): TreeNode?<D>
    reads n
  {
    if d then n.right else n.left
  }

  /** The node at which the next link is made. */
  ghost function Tip<D>(h: TreeNode<D>, sp: Spine<TreeNode<D>>): TreeNode<D> {
    if sp.Top? then h else sp.val
  }

  /** The nodes whose pointer along the spine is already in use. */
  ghost function Inner<D>(h: TreeNode<D>, sp: Spine<TreeNode<D>>): (s: set<TreeNode<D>>)
    ensures s <= if sp.Top? then {} else {h} + SpineCells(sp.up)
  {
    if sp.Top? then {} else Inner(h, sp.up) + {Tip(h, sp.up)}
  }

  /** Nodes whose pointers the predicates on a spine look at, apart from those
      along the spine itself. */
  ghost function Settled<D>(sp: Spine<TreeNode<D>>): set<TreeNode<D>> {
    if sp.Top? then {} else SpineCells(sp.up) + Cells(sp.side)
  }

  /** The spine hangs below the header h; the pointer out of its tip is not
      looked at. */
  ghost predicate Hangs<D>(h: TreeNode<D>, sp: Spine<TreeNode<D>>, d: bool)
    reads (if d then Inner(h, sp) else SpineCells(sp))`right
    reads (if d then SpineCells(sp) else Inner(h, sp))`left
    reads Settled(sp)`left, Settled(sp)`right
  {
    match sp
    case Top => true
    case Below(up, k, v, s) =>
      && v.key == k
      && (if d then Tip(h, up).right == v && Linked(v.left, s) else Tip(h, up).left == v && Linked(v.right, s))
      && Hangs(h, up, d)
  }

  /** Every finished subtree on the spine has exact sizes; the spine nodes
      themselves may be stale. */
  ghost predicate SidesSized<D>(sp: Spine<TreeNode<D>>)
    reads SpineCells(sp)`size
  {
    sp.Below? ==> Sized(sp.side) && SidesSized(sp.up)
  }

  /** Every spine node holds the size it has once n more nodes hang below the
      tip. */
  ghost predicate SpineSized<D>(sp: Spine<TreeNode<D>>, n: nat)
    reads SpineCells(sp)`size
  {
    sp.Below? ==>
      && Sized(sp.side)
      && sp.val.size == Size(sp.side) + 1 + n
      && SpineSized(sp.up, Size(sp.side) + 1 + n)
  }

  lemma {:induction false} PlugLinked<D>(h: TreeNode<D>, sp: Spine<TreeNode<D>>, x: Shape<D>, d: bool)
    requires Hangs(h, sp, d) && Linked(Down(Tip(h, sp), d), x)
    ensures Linked(Down(h, d), Plug(sp, x, d))
  {
    if sp.Below? {
      var t := if d then Node(sp.side, sp.key, sp.val, x) else Node(x, sp.key, sp.val, sp.side);
      assert Linked(sp.val, t);
      PlugLinked(h, sp.up, t, d);
    }
  }

  lemma {:induction false} PlugShape<D>(sp: Spine<TreeNode<D>>, x: Shape<D>, d: bool)
    requires SpineDistinct(sp) && Distinct(x) && SpineCells(sp) !! Cells(x)
    ensures Distinct(Plug(sp, x, d))
    ensures Cells(Plug(sp, x, d)) == SpineCells(sp) + Cells(x)
    ensures Size(Plug(sp, x, d)) == SpineSize(sp) + Size(x)
  {
    if sp.Below? {
      var t := if d then Node(sp.side, sp.key, sp.val, x) else Node(x, sp.key, sp.val, sp.side);
      PlugShape(sp.up, t, d);
    }
  }

  lemma {:induction false} PlugSized<D>(sp: Spine<TreeNode<D>>, x: Shape<D>, d: bool)
    requires SpineSized(sp, Size(x)) && Sized(x)
    ensures Sized(Plug(sp, x, d))
  {
    if sp.Below? {
      var t := if d then Node(sp.side, sp.key, sp.val, x) else Node(x, sp.key, sp.val, sp.side);
      PlugSized(sp.up, t, d);
    }
  }

  /** The spine read off a tree by walking down from its root. */
  function Unplug<V>(x: Tree<V>, above: Spine<V>, d: bool): Spine<V> {
    match x
    case Nil => above
    case Node(l, k, v, r) => if d then Unplug(r, Below(above, k, v, l), d) else Unplug(l, Below(above, k, v, r), d)
  }

  lemma {:induction false} UnplugPlug<V>(sp: Spine<V>, x: Tree<V>, d: bool)
    ensures Unplug(Plug(sp, x, d), Top, d) == Unplug(x, sp, d)
  {
    if sp.Below? {
      UnplugPlug(sp.up, if d then Node(sp.side, sp.key, sp.val, x) else Node(x, sp.key, sp.val, sp.side), d);
    }
  }

  function SpineLength<V>(sp: Spine<V>): nat {
    if sp.Top? then 0 else SpineLength(sp.up) + 1
  }

  /** Along its left or right edge the subtrees hanging off to the other side
      have exact sizes; the nodes of the edge may be stale. */
  ghost predicate SpineSizedSides<D>(x: Shape<D>, d: bool)
    reads Cells(x)`size
  {
    x.Node? ==>
      if d then Sized(x.left) && SpineSizedSides(x.right, d) else Sized(x.right) && SpineSizedSides(x.left, d)
  }

  lemma {:induction false} PlugStale<D>(sp: Spine<TreeNode<D>>, x: Shape<D>, d: bool)
    requires SidesSized(sp) && SpineSizedSides(x, d)
    ensures SpineSizedSides(Plug(sp, x, d), d)
  {
    if sp.Below? {
      var t := if d then Node(sp.side, sp.key, sp.val, x) else Node(x, sp.key, sp.val, sp.side);
      PlugStale(sp.up, t, d);
    }
  }

  // -------------------------------------------------------------- the loops

  function RotatedRight<V>(t: Tree<V>): Tree<V>
    requires t.Node? && t.left.Node?
  {
    Node(t.left.left, t.left.key, t.left.val, Node(t.left.right, t.key, t.val, t.right))
  }

  function RotatedLeft<V>(t: Tree<V>): Tree<V>
    requires t.Node? && t.right.Node?
  {
    Node(Node(t.left, t.key, t.val, t.right.left), t.right.key, t.right.val, t.right.right)
  }

  /** The header, the two spines and the current tree share no node and together
      hold exactly the given ones. */
  ghost predicate Arranged<D>(N: TreeNode<D>, L: Spine<TreeNode<D>>, T: Shape<D>, R: Spine<TreeNode<D>>,
                              all: set<TreeNode<D>>) {
    && Distinct(T) && SpineDistinct(L) && SpineDistinct(R)
    && SpineCells(L) !! SpineCells(R) && SpineCells(L) !! Cells(T) && SpineCells(R) !! Cells(T)
    && SpineCells(L) + Cells(T) + SpineCells(R) == all
    && N !in all
  }

  /** How far the loop is: what is left of T will complete the two side trees. */
  ghost predicate Progress<V>(T0: Tree<V>, i: int32, L: Spine<V>, T: Tree<V>, R: Spine<V>, steps: nat) {
    && T0.Node? && T.Node?
    && var p := Partition(T, i);
       Partition(T0, i) == Parts(Plug(L, p.less, true), p.key, p.val, Plug(R, p.more, false), steps + p.steps)
  }

  lemma ProgressLink<V>(T0: Tree<V>, i: int32, L: Spine<V>, T: Tree<V>, R: Spine<V>, steps: nat)
    requires Progress(T0, i, L, T, R, steps)
    ensures var it := Iterate(T, i);
      if it.Stop? then
        Partition(T0, i) == Parts(Plug(L, it.less, true), it.key, it.val, Plug(R, it.more, false), steps + 1)
      else if it.LinkRight? then
        Progress(T0, i, L, it.rest, Below(R, it.key, it.val, it.side), steps + 1)
      else
        Progress(T0, i, Below(L, it.key, it.val, it.side), it.rest, R, steps + 1)
  {
    hide Iterate;
  }

  lemma TipApart<D>(N: TreeNode<D>, L: Spine<TreeNode<D>>, T: Shape<D>, R: Spine<TreeNode<D>>,
                    all: set<TreeNode<D>>, sp: Spine<TreeNode<D>>, other: Spine<TreeNode<D>>)
    requires Arranged(N, L, T, R, all) && ((sp == R && other == L) || (sp == L && other == R))
    ensures var n := Tip(N, sp);
      && n !in Inner(N, sp) && n !in Settled(sp) && n !in SpineCells(other) && n !in Settled(other) && n !in Cells(T)
  {
  }

  lemma ArrangedLinkRight<D>(N: TreeNode<D>, L: Spine<TreeNode<D>>, T: Shape<D>, R: Spine<TreeNode<D>>,
                             all: set<TreeNode<D>>)
    requires Arranged(N, L, T, R, all) && T.Node?
    ensures Arranged(N, L, T.left, Below(R, T.key, T.val, T.right), all)
  {
  }

  lemma ArrangedLinkLeft<D>(N: TreeNode<D>, L: Spine<TreeNode<D>>, T: Shape<D>, R: Spine<TreeNode<D>>,
                            all: set<TreeNode<D>>)
    requires Arranged(N, L, T, R, all) && T.Node?
    ensures Arranged(N, Below(L, T.key, T.val, T.left), T.right, R, all)
  {
  }

  /** Stores x in the dangling pointer at the tip of the right tree's spine. */
  method StoreLeft<D>(N: TreeNode<D>, r: TreeNode<D>, x: TreeNode?<D>, t: TreeNode<D>, ghost T: Shape<D>,
                     ghost L: Spine<TreeNode<D>>, ghost R: Spine<TreeNode<D>>, ghost all: set<TreeNode<D>>)
    requires Arranged(N, L, T, R, all) && T.Node? && Linked(t, T) && Sized(T.left) && Sized(T.right)
    requires Hangs(N, L, true) && Hangs(N, R, false) && SidesSized(L) && SidesSized(R)
    requires r == Tip(N, R)
    modifies r`left
    ensures r.left == x
    ensures Linked(t, T) && Sized(T.left) && Sized(T.right)
    ensures Hangs(N, L, true) && Hangs(N, R, false) && SidesSized(L) && SidesSized(R)
  {
    TipApart(N, L, T, R, all, R, L);
    hide Arranged, SpineCells, Cells, Inner, Settled, Sized, SidesSized;
    r.left := x;
    assert Hangs(N, R, false) && Linked(t, T);
  }

  /** Stores x in the dangling pointer at the tip of the left tree's spine. */
  method StoreRight<D>(N: TreeNode<D>, l: TreeNode<D>, x: TreeNode?<D>, t: TreeNode<D>, ghost T: Shape<D>,
                     ghost L: Spine<TreeNode<D>>, ghost R: Spine<TreeNode<D>>, ghost all: set<TreeNode<D>>)
    requires Arranged(N, L, T, R, all) && T.Node? && Linked(t, T) && Sized(T.left) && Sized(T.right)
    requires Hangs(N, L, true) && Hangs(N, R, false) && SidesSized(L) && SidesSized(R)
    requires l == Tip(N, L)
    modifies l`right
    ensures l.right == x
    ensures Linked(t, T) && Sized(T.left) && Sized(T.right)
    ensures Hangs(N, L, true) && Hangs(N, R, false) && SidesSized(L) && SidesSized(R)
  {
    TipApart(N, L, T, R, all, L, R);
    hide Arranged, SpineCells, Cells, Inner, Settled, Sized, SidesSized;
    l.right := x;
    assert Hangs(N, L, true) && Linked(t, T);
  }

  method LinkRightBelow<D>(N: TreeNode<D>, r: TreeNode<D>, t: TreeNode<D>, ghost T: Shape<D>,
                           ghost L: Spine<TreeNode<D>>, ghost R: Spine<TreeNode<D>>, ghost all: set<TreeNode<D>>)
    requires Arranged(N, L, T, R, all) && T.Node? && Linked(t, T) && Sized(T.left) && Sized(T.right)
    requires Hangs(N, L, true) && Hangs(N, R, false) && SidesSized(L) && SidesSized(R)
    requires r == Tip(N, R)
    modifies r`left
    ensures Hangs(N, L, true) && Hangs(N, Below(R, T.key, T.val, T.right), false)
    ensures Linked(t, T) && Sized(T.left) && Sized(T.right)
    ensures SidesSized(L) && SidesSized(R)
  {
    hide Arranged, SpineCells, Cells, Inner, Settled, Sized, SidesSized;
    StoreLeft(N, r, t, t, T, L, R, all);
  }

  method LinkLeftBelow<D>(N: TreeNode<D>, l: TreeNode<D>, t: TreeNode<D>, ghost T: Shape<D>,
                           ghost L: Spine<TreeNode<D>>, ghost R: Spine<TreeNode<D>>, ghost all: set<TreeNode<D>>)
    requires Arranged(N, L, T, R, all) && T.Node? && Linked(t, T) && Sized(T.left) && Sized(T.right)
    requires Hangs(N, L, true) && Hangs(N, R, false) && SidesSized(L) && SidesSized(R)
    requires l == Tip(N, L)
    modifies l`right
    ensures Hangs(N, Below(L, T.key, T.val, T.left), true) && Hangs(N, R, false)
    ensures Linked(t, T) && Sized(T.left) && Sized(T.right)
    ensures SidesSized(L) && SidesSized(R)
  {
    hide Arranged, SpineCells, Cells, Inner, Settled, Sized, SidesSized;
    StoreRight(N, l, t, t, T, L, R, all);
  }

  lemma CurrentApart<D>(N: TreeNode<D>, L: Spine<TreeNode<D>>, T: Shape<D>, R: Spine<TreeNode<D>>,
                        all: set<TreeNode<D>>)
    requires Arranged(N, L, T, R, all)
    ensures Cells(T) !! Inner(N, L) + SpineCells(L) + Settled(L)
    ensures Cells(T) !! Inner(N, R) + SpineCells(R) + Settled(R)
    ensures Distinct(T) && Cells(T) <= all && Tip(N, L) in all + {N} && Tip(N, R) in all + {N}
    ensures T.Node? ==>
      && T.val in Cells(T)
      && (T.left.Node? ==> T.left.val in Cells(T)) && (T.right.Node? ==> T.right.val in Cells(T))
  {
  }

  lemma ArrangedRotate<D>(N: TreeNode<D>, L: Spine<TreeNode<D>>, T: Shape<D>, T': Shape<D>,
                          R: Spine<TreeNode<D>>, all: set<TreeNode<D>>)
    requires Arranged(N, L, T, R, all) && Distinct(T') && Cells(T') == Cells(T)
    ensures Arranged(N, L, T', R, all)
  {
  }

  /** The rotation steps; the size of the new root is left stale. */
  method RotateRight<D>(t: TreeNode<D>, ghost T: Shape<D>) returns (y: TreeNode<D>)
    requires T.Node? && T.left.Node? && Linked(t, T) && Distinct(T) && Sized(T)
    modifies t, T.left.val
    ensures Linked(y, RotatedRight(T)) && Distinct(RotatedRight(T)) && Cells(RotatedRight(T)) == Cells(T)
    ensures Sized(RotatedRight(T).left) && Sized(RotatedRight(T).right)
  {
    y := t.left;
    t.left := y.right;
    y.right := t;
    NodeSizeIsSize(t.left, T.left.right);
    NodeSizeIsSize(t.right, T.right);
    t.size := NodeSize(t.left) + NodeSize(t.right) + 1;
  }

  method RotateLeft<D>(t: TreeNode<D>, ghost T: Shape<D>) returns (y: TreeNode<D>)
    requires T.Node? && T.right.Node? && Linked(t, T) && Distinct(T) && Sized(T)
    modifies t, T.right.val
    ensures Linked(y, RotatedLeft(T)) && Distinct(RotatedLeft(T)) && Cells(RotatedLeft(T)) == Cells(T)
    ensures Sized(RotatedLeft(T).left) && Sized(RotatedLeft(T).right)
  {
    y := t.right;
    t.right := y.left;
    y.left := t;
    NodeSizeIsSize(t.left, T.left);
    NodeSizeIsSize(t.right, T.right.left);
    t.size := NodeSize(t.left) + NodeSize(t.right) + 1;
  }

  /** The branch of an iteration that goes left: rotate right if the grandchild
      is on the same side, then link right, unless a NULL pointer ends the loop. */
  method GoLeft<D>(t0: TreeNode<D>, i: int32, N: TreeNode<D>, r0: TreeNode<D>, r_size0: int,
                   ghost T0: Shape<D>, ghost L: Spine<TreeNode<D>>, ghost R0: Spine<TreeNode<D>>,
                   ghost all: set<TreeNode<D>>)
    returns (stop: bool, t: TreeNode<D>, r: TreeNode<D>, r_size: int, ghost T: Shape<D>, ghost R: Spine<TreeNode<D>>)
    requires T0.Node? && Linked(t0, T0) && Sized(T0) && Compare(i, t0.key) < 0
    requires Hangs(N, L, true) && SidesSized(L)
    requires Hangs(N, R0, false) && r0 == Tip(N, R0) && SidesSized(R0) && r_size0 == SpineSize(R0)
    requires Arranged(N, L, T0, R0, all)
    modifies Cells(T0), r0`left
    ensures T.Node? && Linked(t, T) && Sized(T.left) && Sized(T.right) && (!stop ==> Sized(T))
    ensures Hangs(N, L, true) && SidesSized(L)
    ensures Hangs(N, R, false) && r == Tip(N, R) && SidesSized(R) && r_size == SpineSize(R)
    ensures Arranged(N, L, T, R, all)
    ensures var it := Iterate(T0, i);
      if stop then it == Stop(T.left, T.key, T.val, T.right) && R == R0
      else it.LinkRight? && T == it.rest && R == Below(R0, it.key, it.val, it.side)
  {
    hide Wrap32, Arranged, SpineCells, Cells, Distinct, Inner, Settled;
    CurrentApart(N, L, T0, R0, all);
    stop, t, r, r_size, T, R := true, t0, r0, r_size0, T0, R0;
    if t.left == null { return; }
    if Compare(i, t.left.key) < 0 {
      assert allocated(SpineCells(L)) && allocated(Settled(L)) && allocated(Inner(N, L));
      assert allocated(SpineCells(R0)) && allocated(Settled(R0)) && allocated(Inner(N, R0));
      t := RotateRight(t, T0);
      T := RotatedRight(T0);
      ArrangedRotate(N, L, T0, T, R0, all);
      if t.left == null { return; }
    }
    LinkRightBelow(N, r, t, T, L, R0, all);
    ArrangedLinkRight(N, L, T, R0, all);
    stop, r := false, t;
    t := t.left;
    NodeSizeIsSize(r.right, T.right);
    r_size := r_size + 1 + NodeSize(r.right);
    R, T := Below(R0, T.key, T.val, T.right), T.left;
  }

  method GoRight<D>(t0: TreeNode<D>, i: int32, N: TreeNode<D>, l0: TreeNode<D>, l_size0: int,
                    ghost T0: Shape<D>, ghost L0: Spine<TreeNode<D>>, ghost R: Spine<TreeNode<D>>,
                    ghost all: set<TreeNode<D>>)
    returns (stop: bool, t: TreeNode<D>, l: TreeNode<D>, l_size: int, ghost T: Shape<D>, ghost L: Spine<TreeNode<D>>)
    requires T0.Node? && Linked(t0, T0) && Sized(T0) && Compare(i, t0.key) > 0
    requires Hangs(N, L0, true) && l0 == Tip(N, L0) && SidesSized(L0) && l_size0 == SpineSize(L0)
    requires Hangs(N, R, false) && SidesSized(R)
    requires Arranged(N, L0, T0, R, all)
    modifies Cells(T0), l0`right
    ensures T.Node? && Linked(t, T) && Sized(T.left) && Sized(T.right) && (!stop ==> Sized(T))
    ensures Hangs(N, L, true) && l == Tip(N, L) && SidesSized(L) && l_size == SpineSize(L)
    ensures Hangs(N, R, false) && SidesSized(R)
    ensures Arranged(N, L, T, R, all)
    ensures var it := Iterate(T0, i);
      if stop then it == Stop(T.left, T.key, T.val, T.right) && L == L0
      else it.LinkLeft? && T == it.rest && L == Below(L0, it.key, it.val, it.side)
  {
    hide Wrap32, Arranged, SpineCells, Cells, Distinct, Inner, Settled;
    CurrentApart(N, L0, T0, R, all);
    stop, t, l, l_size, T, L := true, t0, l0, l_size0, T0, L0;
    if t.right == null { return; }
    if Compare(i, t.right.key) > 0 {
      assert allocated(SpineCells(L0)) && allocated(Settled(L0)) && allocated(Inner(N, L0));
      assert allocated(SpineCells(R)) && allocated(Settled(R)) && allocated(Inner(N, R));
      t := RotateLeft(t, T0);
      T := RotatedLeft(T0);
      ArrangedRotate(N, L0, T0, T, R, all);
      if t.right == null { return; }
    }
    LinkLeftBelow(N, l, t, T, L0, R, all);
    ArrangedLinkLeft(N, L0, T, R, all);
    stop, l := false, t;
    t := t.right;
    NodeSizeIsSize(l.left, T.left);
    l_size := l_size + 1 + NodeSize(l.left);
    L, T := Below(L0, T.key, T.val, T.left), T.right;
  }

  /** The main loop: takes the tree t0 apart. Returns the node it stops at, the
      tips of the two spines hanging below the header N, and the sizes of the two
      spines with their subtrees. */
  method Dismantle<D>(t0: TreeNode<D>, i: int32, N: TreeNode<D>, ghost T0: Shape<D>)
    returns (t: TreeNode<D>, l: TreeNode<D>, r: TreeNode<D>, l_size: int, r_size: int,
             ghost T: Shape<D>, ghost L: Spine<TreeNode<D>>, ghost R: Spine<TreeNode<D>>, ghost steps: nat)
    requires T0.Node? && Linked(t0, T0) && Distinct(T0) && Sized(T0) && N !in Cells(T0)
    modifies Cells(T0), N
    ensures T.Node? && Linked(t, T) && Sized(T.left) && Sized(T.right)
    ensures Hangs(N, L, true) && l == Tip(N, L) && SidesSized(L) && l_size == SpineSize(L)
    ensures Hangs(N, R, false) && r == Tip(N, R) && SidesSized(R) && r_size == SpineSize(R)
    ensures Arranged(N, L, T, R, Cells(T0))
    ensures Partition(T0, i) ==
      Parts(Plug(L, T.left, true), T.key, T.val, Plug(R, T.right, false), steps)
    ensures steps == SpineLength(L) + SpineLength(R) + 1
  {
    t, l, r, l_size, r_size := t0, N, N, 0, 0;
    T, L, R, steps := T0, Top, Top, 0;
    ghost var all := Cells(T0);
    assert Progress(T0, i, L, T, R, steps) && Arranged(N, L, T, R, all);
    hide Wrap32, Partition, Plug, Arranged, SpineCells, Cells, Distinct, Inner, Settled, Progress, Size;
    var stop := false;
    while true
      invariant T.Node? && Linked(t, T) && Sized(T)
      invariant Hangs(N, L, true) && l == Tip(N, L) && SidesSized(L) && l_size == SpineSize(L)
      invariant Hangs(N, R, false) && r == Tip(N, R) && SidesSized(R) && r_size == SpineSize(R)
      invariant Arranged(N, L, T, R, all)
      invariant Progress(T0, i, L, T, R, steps) && steps == SpineLength(L) + SpineLength(R)
      decreases T
    {
      ProgressLink(T0, i, L, T, R, steps);
      CurrentApart(N, L, T, R, all);
      steps := steps + 1;
      var comp := Compare(i, t.key);
      if comp < 0 {
        stop, t, r, r_size, T, R := GoLeft(t, i, N, r, r_size, T, L, R, all);
      } else if comp > 0 {
        stop, t, l, l_size, T, L := GoRight(t, i, N, l, l_size, T, L, R, all);
      } else {
        stop := true;
      }
      if stop { break; }
    }
  }

  // -------------------------------------------------- correcting the sizes

  /** While a correction loop walks down the spine sp, done is the part above the
      current node and cur the tree below. */
  ghost predicate Walking<D>(sp: Spine<TreeNode<D>>, done: Spine<TreeNode<D>>, cur: Shape<D>, d: bool) {
    && Unplug(cur, done, d) == sp
    && Distinct(cur) && SpineDistinct(done)
    && SpineCells(done) !! Cells(cur)
    && SpineCells(done) + Cells(cur) == SpineCells(sp)
  }

  function SideOf<V>(t: Tree<V>, d: bool): Tree<V>
    requires t.Node?
  {
    if d then t.left else t.right
  }

  lemma WalkStart<D>(N: TreeNode<D>, sp: Spine<TreeNode<D>>, d: bool, extra: nat)
    requires Hangs(N, sp, d) && SpineDistinct(sp) && SidesSized(sp) && Down(Tip(N, sp), d) == null
    ensures var x: Shape<D>, top := Plug(sp, Nil, d), Top;
      && Walking(sp, top, x, d)
      && Linked(Down(N, d), x) && RootIs(Down(N, d), x) && SpineSizedSides(x, d)
      && Size(x) == SpineSize(sp) && SpineSized(top, Size(x) + extra) && SpineLength(top) == 0
  {
    PlugLinked(N, sp, Nil, d);
    PlugShape(sp, Nil, d);
    PlugStale(sp, Nil, d);
    UnplugPlug(sp, Nil, d);
  }

  lemma WalkStep<D>(sp: Spine<TreeNode<D>>, done: Spine<TreeNode<D>>, cur: Shape<D>, d: bool)
    requires Walking(sp, done, cur, d) && cur.Node?
    ensures Walking(sp, Below(done, cur.key, cur.val, SideOf(cur, d)), SideOf(cur, !d), d)
    ensures Size(cur) == Size(SideOf(cur, d)) + Size(SideOf(cur, !d)) + 1
    ensures SpineLength(Below(done, cur.key, cur.val, SideOf(cur, d))) == SpineLength(done) + 1
    ensures cur.val in SpineCells(sp) && cur.val !in SpineCells(done)
    ensures cur.val !in Cells(cur.left) && cur.val !in Cells(cur.right)
  {
  }

  /** The body of the correction loops. */
  method CorrectNode<D>(y: TreeNode<D>, size: int, d: bool, ghost sp: Spine<TreeNode<D>>,
                        ghost done: Spine<TreeNode<D>>, ghost cur: Shape<D>, ghost extra: nat)
    returns (next: TreeNode?<D>, size': int)
    requires Walking(sp, done, cur, d) && cur.Node?
    requires Linked(y, cur) && SpineSizedSides(cur, d)
    requires size == Size(cur) + extra && SpineSized(done, size)
    modifies y`size
    ensures y.size == size
    ensures Linked(next, SideOf(cur, !d)) && SpineSizedSides(SideOf(cur, !d), d)
    ensures RootIs(next, SideOf(cur, !d))
    ensures size' == Size(SideOf(cur, !d)) + extra
    ensures SpineSized(Below(done, cur.key, cur.val, SideOf(cur, d)), size')
  {
    WalkStep(sp, done, cur, d);
    hide Walking, SpineCells, Cells, Size;
    y.size := size;
    var side := if d then y.left else y.right;
    NodeSizeIsSize(side, SideOf(cur, d));
    size' := size - (1 + NodeSize(side));
    next := Down(y, d);
  }

  /** One of the two loops that walk down a spine from the header and store the
      exact sizes, given the size total of the whole side tree; extra nodes of it
      will be hung below the tip. */
  method CorrectSizes<D>(N: TreeNode<D>, total: int, d: bool, ghost sp: Spine<TreeNode<D>>, ghost extra: nat)
    returns (ghost steps: nat)
    requires Hangs(N, sp, d) && SpineDistinct(sp) && SidesSized(sp)
    requires Down(Tip(N, sp), d) == null
    requires total == SpineSize(sp) + extra
    modifies SpineCells(sp)`size
    ensures SpineSized(sp, extra)
    ensures steps == SpineLength(sp)
  {
    hide Hangs, SpineDistinct, SidesSized, Down, Tip, SpineSize, Size, SpineSized, SpineSizedSides, SpineLength,
         SpineCells, Walking, Linked, Plug, SideOf;
    ghost var done, cur := Top, Plug(sp, Nil, d);
    WalkStart(N, sp, d, extra);
    var y, size := Down(N, d), total;
    steps := 0;
    while y != null
      invariant Walking(sp, done, cur, d)
      invariant Linked(y, cur) && RootIs(y, cur) && SpineSizedSides(cur, d)
      invariant size == Size(cur) + extra
      invariant SpineSized(done, Size(cur) + extra)
      invariant steps == SpineLength(done)
      decreases Size(cur)
    {
      WalkStep(sp, done, cur, d);
      y, size := CorrectNode(y, size, d, sp, done, cur, extra);
      done, cur := Below(done, cur.key, cur.val, SideOf(cur, d)), SideOf(cur, !d);
      steps := steps + 1;
    }
    WalkEnd(sp, done, cur, d);
  }

  lemma WalkEnd<D>(sp: Spine<TreeNode<D>>, done: Spine<TreeNode<D>>, cur: Shape<D>, d: bool)
    requires Walking(sp, done, cur, d) && cur.Nil?
    ensures done == sp && Size(cur) == 0
  {
  }

  // ------------------------------------------------------------ assembling

  ghost function Assembled<D>(L: Spine<TreeNode<D>>, T: Shape<D>, R: Spine<TreeNode<D>>): Shape<D>
    requires T.Node?
  {
    Node(Plug(L, T.left, true), T.key, T.val, Plug(R, T.right, false))
  }

  lemma AssembledShape<D>(N: TreeNode<D>, L: Spine<TreeNode<D>>, T: Shape<D>, R: Spine<TreeNode<D>>,
                          all: set<TreeNode<D>>)
    requires Arranged(N, L, T, R, all) && T.Node?
    ensures var S := Assembled(L, T, R);
      && Distinct(S) && Cells(S) == all
      && Size(S) == SpineSize(L) + Size(T.left) + SpineSize(R) + Size(T.right) + 1
      && T.val in all && T.val !in Cells(S.left) && T.val !in Cells(S.right) && T.val != N
  {
    PlugShape(L, T.left, true);
    PlugShape(R, T.right, false);
  }

  /** The last four assignments: the subtrees of t go below the two tips, the two
      side trees below t. */
  method Assemble<D>(N: TreeNode<D>, t: TreeNode<D>, l: TreeNode<D>, r: TreeNode<D>,
                     ghost L: Spine<TreeNode<D>>, ghost T: Shape<D>, ghost R: Spine<TreeNode<D>>,
                     ghost all: set<TreeNode<D>>)
    requires Arranged(N, L, T, R, all) && T.Node? && Linked(t, T) && Sized(T.left) && Sized(T.right)
    requires Hangs(N, L, true) && l == Tip(N, L) && SpineSized(L, Size(T.left))
    requires Hangs(N, R, false) && r == Tip(N, R) && SpineSized(R, Size(T.right))
    requires t.size == Size(Assembled(L, T, R))
    modifies l`right, r`left, t`left, t`right
    ensures Linked(t, Assembled(L, T, R)) && Sized(Assembled(L, T, R))
  {
    hide *;
    AssembledShape(N, L, T, R, all);
    AssembledRoot(t, L, T, R);
    HangLeft(N, l, t, L, T, R, all);
    HangRight(N, r, t, L, T, R, all);
    Attach(N, t, Assembled(L, T, R));
  }

  lemma AssembledRoot<D>(t: TreeNode<D>, L: Spine<TreeNode<D>>, T: Shape<D>, R: Spine<TreeNode<D>>)
    requires T.Node? && Linked(t, T)
    ensures var S := Assembled(L, T, R);
      && S.Node? && S.left == Plug(L, T.left, true) && S.right == Plug(R, T.right, false)
      && S.key == t.key && S.val == T.val == t
  {
  }

  method Attach<D>(N: TreeNode<D>, t: TreeNode<D>, ghost S: Shape<D>)
    requires S.Node? && t == S.val && t.key == S.key && t != N && t.size == Size(S)
    requires t !in Cells(S.left) && t !in Cells(S.right)
    requires Linked(N.right, S.left) && Linked(N.left, S.right) && Sized(S.left) && Sized(S.right)
    modifies t`left, t`right
    ensures Linked(t, S) && Sized(S)
  {
    hide Cells, Size;
    t.left := N.right;
    t.right := N.left;
    assert Linked(t.left, S.left) && Linked(t.right, S.right);
  }

  method HangLeft<D>(N: TreeNode<D>, l: TreeNode<D>, t: TreeNode<D>,
                     ghost L: Spine<TreeNode<D>>, ghost T: Shape<D>, ghost R: Spine<TreeNode<D>>,
                     ghost all: set<TreeNode<D>>)
    requires Arranged(N, L, T, R, all) && T.Node? && Linked(t, T) && Sized(T.left) && Sized(T.right)
    requires Hangs(N, L, true) && l == Tip(N, L) && SpineSized(L, Size(T.left))
    requires Hangs(N, R, false) && SpineSized(R, Size(T.right))
    modifies l`right
    ensures Linked(t, T) && Hangs(N, R, false) && SpineSized(R, Size(T.right)) && Sized(T.right)
    ensures Linked(N.right, Plug(L, T.left, true)) && Sized(Plug(L, T.left, true))
  {
    hide Arranged, SpineCells, Cells, Inner, Settled, Size, Distinct, Plug, SpineSized, Sized, SpineDistinct, Tip;
    TipApart(N, L, T, R, all, L, R);
    PlugSized(L, T.left, true);
    l.right := t.left;
    assert Linked(t, T) && Hangs(N, L, true);
    PlugLinked(N, L, T.left, true);
  }

  method HangRight<D>(N: TreeNode<D>, r: TreeNode<D>, t: TreeNode<D>,
                      ghost L: Spine<TreeNode<D>>, ghost T: Shape<D>, ghost R: Spine<TreeNode<D>>,
                      ghost all: set<TreeNode<D>>)
    requires Arranged(N, L, T, R, all) && T.Node? && Linked(t, T) && Sized(T.right)
    requires Hangs(N, R, false) && r == Tip(N, R) && SpineSized(R, Size(T.right))
    requires Linked(N.right, Plug(L, T.left, true)) && Sized(Plug(L, T.left, true))
    modifies r`left
    ensures Linked(t, T) && Linked(N.right, Plug(L, T.left, true)) && Sized(Plug(L, T.left, true))
    ensures Linked(N.left, Plug(R, T.right, false)) && Sized(Plug(R, T.right, false))
  {
    hide Arranged, SpineCells, Cells, Inner, Settled, Size, Distinct, Plug, SpineSized, Sized, SpineDistinct, Tip;
    TipApart(N, L, T, R, all, R, L);
    PlugSized(R, T.right, false);
    AssembledApart(N, L, T, R, all);
    r.left := t.right;
    assert Linked(t, T) && Hangs(N, R, false);
    PlugLinked(N, R, T.right, false);
  }

  lemma AssembledApart<D>(N: TreeNode<D>, L: Spine<TreeNode<D>>, T: Shape<D>, R: Spine<TreeNode<D>>,
                          all: set<TreeNode<D>>)
    requires Arranged(N, L, T, R, all) && T.Node?
    ensures Tip(N, R) !in Cells(Plug(L, T.left, true))
  {
    PlugShape(L, T.left, true);
  }

  lemma RootFacts<D>(t: TreeNode<D>, T: Shape<D>)
    requires T.Node? && Linked(t, T) && Sized(T.left) && Sized(T.right)
    ensures t == T.val && NodeSize(t.left) == Size(T.left) && NodeSize(t.right) == Size(T.right)
  {
    NodeSizeIsSize(t.left, T.left);
    NodeSizeIsSize(t.right, T.right);
  }

  /** Stores the size of the node the loop stopped at. */
  method StoreSize<D>(t: TreeNode<D>, size: int, N: TreeNode<D>, ghost T: Shape<D>,
                      ghost L: Spine<TreeNode<D>>, ghost R: Spine<TreeNode<D>>, ghost all: set<TreeNode<D>>)
    requires Arranged(N, L, T, R, all) && T.Node? && Linked(t, T) && Sized(T.left) && Sized(T.right)
    requires Hangs(N, L, true) && Hangs(N, R, false) && SidesSized(L) && SidesSized(R)
    modifies t`size
    ensures t.size == size
    ensures Linked(t, T) && Sized(T.left) && Sized(T.right)
    ensures Hangs(N, L, true) && Hangs(N, R, false) && SidesSized(L) && SidesSized(R)
  {
    RootFacts(t, T);
    FinishApart(N, L, T, R, all);
    hide *;
    t.size := size;
  }

  /** Both correction loops. */
  method CorrectBoth<D>(N: TreeNode<D>, t: TreeNode<D>, l: TreeNode<D>, r: TreeNode<D>,
                        l_size: int, r_size: int,
                        ghost L: Spine<TreeNode<D>>, ghost T: Shape<D>, ghost R: Spine<TreeNode<D>>,
                        ghost all: set<TreeNode<D>>)
    returns (ghost steps: nat)
    requires Arranged(N, L, T, R, all) && T.Node? && Linked(t, T) && Sized(T.left) && Sized(T.right)
    requires Hangs(N, L, true) && SidesSized(L) && l == Tip(N, L) && l.right == null
    requires Hangs(N, R, false) && SidesSized(R) && r == Tip(N, R) && r.left == null
    requires l_size == SpineSize(L) + Size(T.left) && r_size == SpineSize(R) + Size(T.right)
    modifies (SpineCells(L) + SpineCells(R))`size
    ensures Linked(t, T) && Sized(T.left) && Sized(T.right) && t.size == old(t.size)
    ensures Hangs(N, L, true) && SpineSized(L, Size(T.left))
    ensures Hangs(N, R, false) && SpineSized(R, Size(T.right))
    ensures steps == SpineLength(L) + SpineLength(R)
  {
    RootFacts(t, T);
    FinishApart(N, L, T, R, all);
    assert Down(Tip(N, L), true) == null && Down(Tip(N, R), false) == null;
    hide Arranged, SpineCells, Cells, Inner, Settled, Size, Distinct, SpineDistinct, SpineSize, Hangs, Tip, Down,
         Sized, SidesSized, SpineSized, SpineLength, Linked;
    assert allocated(SpineCells(L)) && allocated(SpineCells(R));
    assert allocated(Cells(T.left)) && allocated(Cells(T.right));
    assert allocated(Inner(N, R)) && allocated(Settled(R)) && allocated(Inner(N, L)) && allocated(Settled(L));
    assert allocated(Cells(T));
    var leftSteps := CorrectSizes(N, l_size, true, L, Size(T.left));
    var rightSteps := CorrectSizes(N, r_size, false, R, Size(T.right));
    steps := leftSteps + rightSteps;
  }

  /** Everything after the main loop. */
  method Finish<D>(N: TreeNode<D>, t: TreeNode<D>, l: TreeNode<D>, r: TreeNode<D>, l_size0: int, r_size0: int,
                   ghost L: Spine<TreeNode<D>>, ghost T: Shape<D>, ghost R: Spine<TreeNode<D>>,
                   ghost all: set<TreeNode<D>>)
    returns (ghost steps: nat)
    requires Arranged(N, L, T, R, all) && T.Node? && Linked(t, T) && Sized(T.left) && Sized(T.right)
    requires Hangs(N, L, true) && l == Tip(N, L) && SidesSized(L) && l_size0 == SpineSize(L)
    requires Hangs(N, R, false) && r == Tip(N, R) && SidesSized(R) && r_size0 == SpineSize(R)
    modifies all, N
    ensures Linked(t, Assembled(L, T, R)) && Sized(Assembled(L, T, R))
    ensures steps == SpineLength(L) + SpineLength(R)
  {
    hide *;
    RootFacts(t, T);
    AssembledShape(N, L, T, R, all);
    FinishApart(N, L, T, R, all);
    var l_size := l_size0 + NodeSize(t.left);
    var r_size := r_size0 + NodeSize(t.right);
    StoreSize(t, l_size + r_size + 1, N, T, L, R, all);
    StoreLeft(N, r, null, t, T, L, R, all);
    StoreRight(N, l, null, t, T, L, R, all);
    steps := CorrectBoth(N, t, l, r, l_size, r_size, L, T, R, all);
    Assemble(N, t, l, r, L, T, R, all);
  }

  lemma FinishApart<D>(N: TreeNode<D>, L: Spine<TreeNode<D>>, T: Shape<D>, R: Spine<TreeNode<D>>,
                       all: set<TreeNode<D>>)
    requires Arranged(N, L, T, R, all) && T.Node?
    ensures SpineDistinct(L) && SpineDistinct(R)
    ensures SpineCells(L) !! SpineCells(R) && SpineCells(L) + SpineCells(R) + Cells(T.left) + Cells(T.right) <= all
    ensures SpineCells(L) + SpineCells(R) !! Cells(T.left) + Cells(T.right)
    ensures T.val in all && T.val !in SpineCells(L) && T.val !in SpineCells(R)
    ensures T.val !in Cells(T.left) && T.val !in Cells(T.right)
    ensures Tip(N, L) in all + {N} && Tip(N, R) in all + {N}
  {
  }

  lemma SplayIsAssembled<D>(T0: Shape<D>, i: int32, N: TreeNode<D>, L: Spine<TreeNode<D>>, T: Shape<D>,
                            R: Spine<TreeNode<D>>, all: set<TreeNode<D>>, steps: nat)
    requires Arranged(N, L, T, R, all) && T.Node? && T0.Node?
    requires Partition(T0, i) == Parts(Plug(L, T.left, true), T.key, T.val, Plug(R, T.right, false), steps)
    ensures Splay(T0, i) == Assembled(L, T, R)
    ensures Distinct(Splay(T0, i)) && Cells(Splay(T0, i)) == all
  {
    AssembledShape(N, L, T, R, all);
  }

  /** Iterations of all three loops of a splay. */
  function LoopCount<V>(t: Tree<V>, i: int32): int {
    if t.Nil? then 0 else 2 * Partition(t, i).steps - 1
  }

  /** splaytree_splay: the tree below the returned node is the splayed one, with
      the very same nodes and exact sizes. The three loops together make less
      than twice as many iterations as the main loop alone. */
  method SplayInPlace<D>(t0: TreeNode?<D>, i: int32, ghost T0: Shape<D>)
    returns (t: TreeNode?<D>, ghost steps: nat)
    requires Linked(t0, T0) && Distinct(T0) && Sized(T0)
    modifies Cells(T0)
    ensures var S := Splay(T0, i);
      Linked(t, S) && Distinct(S) && Sized(S) && Cells(S) == Cells(T0)
    ensures steps == LoopCount(T0, i)
  {
    if t0 == null { return null, 0; }
    assert allocated(Cells(T0));
    var N := new TreeNode(t0.key, t0.data);
    assert Linked(t0, T0) && Sized(T0) && N !in Cells(T0);
    hide *;
    var l, r, l_size, r_size;
    ghost var T, L, R, correctionSteps;
    t, l, r, l_size, r_size, T, L, R, steps := Dismantle(t0, i, N, T0);
    correctionSteps := Finish(N, t, l, r, l_size, r_size, L, T, R, Cells(T0));
    steps := steps + correctionSteps;
    SplayIsAssembled(T0, i, N, L, T, R, Cells(T0), Partition(T0, i).steps);
  }

  // -------------------------------------------------- insertion, deletion, rank

  /** The splayed root compares equal to i. */
  predicate Found<V>(t: Tree<V>, i: int32) {
    t.Node? && Compare(i, Splay(t, i).key) == 0
  }

  /** splaytree_insert. The ghost result n is the node that now holds key i: a new
      one, unless the key was found. */
  method InsertInPlace<D>(t0: TreeNode?<D>, i: int32, data: D, ghost T0: Shape<D>)
    returns (u: TreeNode<D>, ghost n: TreeNode<D>, ghost steps: nat)
    requires Linked(t0, T0) && Distinct(T0) && Sized(T0)
    modifies Cells(T0)
    ensures var U := Insert(T0, i, n);
      Linked(u, U) && Distinct(U) && Sized(U)
    ensures n == u
    ensures Found(T0, i) ==> Cells(Insert(T0, i, n)) == Cells(T0)
    ensures !Found(T0, i) ==>
      fresh(n) && n.key == i && n.data == data && Cells(Insert(T0, i, n)) == Cells(T0) + {n}
    ensures steps == LoopCount(T0, i)
  {
    var t := t0;
    ghost var S := Splay(T0, i);
    steps := 0;
    if t != null {
      t, steps := SplayInPlace(t, i, T0);
      if Compare(i, t.key) == 0 {
        return t, t, steps;
      }
    }
    hide Splay, Wrap32;
    if t == null {
      u := new TreeNode(i, data);
      u.left, u.right := null, null;
      u.size := 1 + NodeSize(u.left) + NodeSize(u.right);
      ghost var e: Shape<D> := Nil;
      assert Sized(e) && Size(e) == 0 && Linked(null, e);
    } else {
      u := AddRoot(t, i, data, S);
    }
    n := u;
  }

  /** Splits the tree below t in two and puts a new node on top. */
  method AddRoot<D>(t: TreeNode<D>, i: int32, data: D, ghost S: Shape<D>) returns (node: TreeNode<D>)
    requires S.Node? && Linked(t, S) && Distinct(S) && Sized(S) && Compare(i, t.key) != 0
    modifies t
    ensures fresh(node) && node.key == i && node.data == data
    ensures var U :=
        if Compare(i, S.key) < 0 then Node(S.left, i, node, Node(Nil, S.key, S.val, S.right))
        else Node(Node(S.left, S.key, S.val, Nil), i, node, S.right);
      Linked(node, U) && Distinct(U) && Sized(U) && Cells(U) == Cells(S) + {node}
  {
    assert allocated(Cells(S));
    node := new TreeNode(i, data);
    assert node !in Cells(S) && Linked(t, S) && Sized(S);
    AddedShape(S, i, node);
    hide Wrap32, Cells, Distinct;
    if Compare(i, t.key) < 0 {
      node.left := t.left;
      node.right := t;
      CutLeft(t, node, S);
      NodeSizeIsSize(node.left, S.left);
      NodeSizeIsSize(node.right, Node(Nil, S.key, S.val, S.right));
      node.size := 1 + NodeSize(node.left) + NodeSize(node.right);
    } else {
      node.right := t.right;
      node.left := t;
      CutRight(t, node, S);
      NodeSizeIsSize(node.left, Node(S.left, S.key, S.val, Nil));
      NodeSizeIsSize(node.right, S.right);
      node.size := 1 + NodeSize(node.left) + NodeSize(node.right);
    }
  }

  lemma EmptyShape<D>(t: TreeNode<D>)
    ensures var e: Shape<D> := Nil; Linked(null, e) && Sized(e) && Size(e) == 0
  {
  }

  /** Cuts the left subtree, now held by the new node, off from t. */
  method CutLeft<D>(t: TreeNode<D>, node: TreeNode<D>, ghost S: Shape<D>)
    requires S.Node? && Linked(t, S) && Sized(S) && t !in Cells(S.left) && t !in Cells(S.right) && t != node
    requires node.left == t.left
    modifies t`left, t`size
    ensures Linked(t, Node(Nil, S.key, S.val, S.right)) && Sized(Node(Nil, S.key, S.val, S.right))
    ensures Linked(node.left, S.left) && Sized(S.left)
  {
    hide Cells;
    t.left := null;
    NodeSizeIsSize(t.right, S.right);
    t.size := 1 + NodeSize(t.right);
    EmptyShape(t);
    assert Linked(t.right, S.right) && Sized(S.right);
  }

  method CutRight<D>(t: TreeNode<D>, node: TreeNode<D>, ghost S: Shape<D>)
    requires S.Node? && Linked(t, S) && Sized(S) && t !in Cells(S.left) && t !in Cells(S.right) && t != node
    requires node.right == t.right
    modifies t`right, t`size
    ensures Linked(t, Node(S.left, S.key, S.val, Nil)) && Sized(Node(S.left, S.key, S.val, Nil))
    ensures Linked(node.right, S.right) && Sized(S.right)
  {
    hide Cells;
    t.right := null;
    NodeSizeIsSize(t.left, S.left);
    t.size := 1 + NodeSize(t.left);
    EmptyShape(t);
    assert Linked(t.left, S.left) && Sized(S.left);
  }

  lemma AddedShape<D>(S: Shape<D>, i: int32, n: TreeNode<D>)
    requires S.Node? && Distinct(S) && n !in Cells(S)
    ensures var U := Node(S.left, i, n, Node(Nil, S.key, S.val, S.right));
      Distinct(U) && Cells(U) == Cells(S) + {n}
    ensures var U := Node(Node(S.left, S.key, S.val, Nil), i, n, S.right);
      Distinct(U) && Cells(U) == Cells(S) + {n}
    ensures S.val !in Cells(S.left) && S.val !in Cells(S.right) && S.val != n
    ensures n !in Cells(S.left) && n !in Cells(S.right)
    ensures n !in Cells(Node(Nil, S.key, S.val, S.right)) && n !in Cells(Node(S.left, S.key, S.val, Nil))
  {
    var e: Shape<D> := Nil;
    assert Distinct(e) && Cells(e) == {};
    var r, l := Node(e, S.key, S.val, S.right), Node(S.left, S.key, S.val, e);
    assert Distinct(r) && Cells(r) == {S.val} + Cells(S.right);
    assert Distinct(l) && Cells(l) == Cells(S.left) + {S.val};
  }

  /** The second splay of a deletion leaves no node to the right of the new root. */
  predicate JoinLosesNothing<V>(t: Tree<V>, i: int32) {
    Found(t, i) && Splay(t, i).left.Node? ==>
      Splay(Splay(t, i).left, i).right.Nil?
  }

  lemma OrderedJoinLosesNothing<V>(t: Tree<V>, i: int32)
    requires Ordered(t) && Comparable(t, i)
    ensures JoinLosesNothing(t, i)
  {
    if Found(t, i) && Splay(t, i).left.Node? {
      SplayKeeps(t, i);
      SplaySeparates(t, i);
      SplayAboveAll(Splay(t, i).left, i);
    }
  }

  /** splaytree_delete. The stored sizes stay exact exactly when the join after the
      second splay loses nothing. */
  method DeleteInPlace<D>(t0: TreeNode?<D>, i: int32, ghost T0: Shape<D>)
    returns (u: TreeNode?<D>, ghost steps: nat)
    requires Linked(t0, T0) && Distinct(T0) && Sized(T0)
    modifies Cells(T0)
    ensures var U := Delete(T0, i);
      Linked(u, U) && Distinct(U) && Cells(U) <= Cells(T0) && (Sized(U) <==> JoinLosesNothing(T0, i))
    ensures steps == LoopCount(T0, i) + if Found(T0, i) then LoopCount(Splay(T0, i).left, i) else 0
  {
    if t0 == null { return null, 0; }
    var tsize := t0.size;
    ghost var S, more := Splay(T0, i), 0;
    SplayKeeps(T0, i);
    var t;
    t, steps := SplayInPlace(t0, i, T0);
    hide Splay, Wrap32;
    if Compare(i, t.key) == 0 {
      if t.left == null {
        u := t.right;
        if u != null {
          u.size := tsize - 1;
        }
      } else {
        u, more := JoinWithoutRoot(t, i, tsize, S);
        steps := steps + more;
      }
    } else {
      u := t;
    }
  }

  /** Deletion of a root with a left subtree: that subtree is splayed and takes
      over the right one. */
  method JoinWithoutRoot<D>(t: TreeNode<D>, i: int32, tsize: int, ghost S: Shape<D>)
    returns (x: TreeNode<D>, ghost steps: nat)
    requires S.Node? && S.left.Node? && Linked(t, S) && Distinct(S) && Sized(S) && tsize == Size(S)
    modifies Cells(S.left)
    ensures var X := Splay(S.left, i); var U := Node(X.left, X.key, X.val, S.right);
      Linked(x, U) && Distinct(U) && Cells(U) <= Cells(S) && (Sized(U) <==> X.right.Nil?)
    ensures steps == LoopCount(S.left, i)
  {
    ghost var X := Splay(S.left, i);
    SplayKeeps(S.left, i);
    hide Splay;
    assert allocated(Cells(S.right));
    assert S.val !in Cells(S.left) && Cells(S.left) !! Cells(S.right);
    x, steps := SplayInPlace(t.left, i, S.left);
    hide Cells, Distinct;
    assert Linked(t.right, S.right) && Sized(S.right);
    TakeOver(x, t.right, tsize, X, S);
  }

  /** The stores into the new root x. */
  method TakeOver<D>(x: TreeNode<D>, right: TreeNode?<D>, tsize: int, ghost X: Shape<D>, ghost S: Shape<D>)
    requires S.Node? && S.left.Node? && Distinct(S) && tsize == Size(S)
    requires Size(X) == Size(S.left) && Distinct(X) && Cells(X) == Cells(S.left)
    requires Linked(x, X) && Sized(X) && Linked(right, S.right) && Sized(S.right)
    modifies x
    ensures var U := Node(X.left, X.key, X.val, S.right);
      Linked(x, U) && Distinct(U) && Cells(U) <= Cells(S) && (Sized(U) <==> X.right.Nil?)
  {
    JoinedShape(S, X);
    JoinedSize(S, X);
    hide Cells, Distinct, Size;
    x.right := right;
    x.size := tsize - 1;
  }

  lemma JoinedShape<D>(S: Shape<D>, X: Shape<D>)
    requires S.Node? && Distinct(S) && X.Node? && Distinct(X) && Cells(X) == Cells(S.left)
    ensures X.val !in Cells(X.left) && X.val !in Cells(S.right)
    ensures var U := Node(X.left, X.key, X.val, S.right);
      Distinct(U) && Cells(U) <= Cells(S)
  {
    assert Cells(X.left) <= Cells(X);
  }

  lemma JoinedSize<V>(S: Tree<V>, X: Tree<V>)
    requires S.Node? && S.left.Node? && Size(X) == Size(S.left)
    ensures X.Node?
    ensures Size(S) - 1 == Size(Node(X.left, X.key, X.val, S.right)) <==> X.right.Nil?
  {
  }

  /** find_rank: the node with r nodes to its left, or NULL when there is none. */
  method FindRank<D>(r0: int, t0: TreeNode?<D>, ghost T0: Shape<D>) returns (n: TreeNode?<D>)
    requires Linked(t0, T0) && Sized(T0)
    ensures n == null <==> r0 < 0 || r0 >= Size(T0)
    ensures n != null ==> (n.key, n) == Select(T0, r0)
  {
    if r0 < 0 || r0 >= NodeSize(t0) { return null; }
    var r, t := r0, t0;
    ghost var T := T0;
    while true
      invariant Linked(t, T) && Sized(T) && 0 <= r < Size(T) && Select(T, r) == Select(T0, r0)
      decreases T
    {
      var lsize := NodeSize(t.left);
      if r < lsize {
        t, T := t.left, T.left;
      } else if r > lsize {
        r := r - lsize - 1;
        t, T := t.right, T.right;
      } else {
        return t;
      }
    }
  }
}
