/**
 * Mathematical side of the bundle store (components/upcn/bundle_storage_manager.c): the shape of
 * the search tree as a value, the place of a sub-tree inside it, and what one rebalancing pass
 * towards the root does to both. `AvlTree` ties the linked nodes in memory to these values.
 */
module AvlShapes {

  /** A bundle as the store sees it: its assigned id and the length of its payload block. */
  class Bundle {
    var id: nat
    var payloadLength: nat

    constructor (length: nat)
      ensures id == 0 && payloadLength == length
    {
      id, payloadLength := 0, length;
    }
  }

  /** Index into `successor[]`. */
  datatype Side = L | R {
    function Other(): Side { if L? then R else L }
  }

  class TreeNode {
    const id: int
    const bundle: Bundle
    var successor0: TreeNode?
    var successor1: TreeNode?
    var parent: TreeNode?
    var height: int

    constructor (id: int, bundle: Bundle, parent: TreeNode?)
      ensures this.id == id && this.bundle == bundle && this.parent == parent
      ensures successor0 == null && successor1 == null && height == 1
    {
      this.id, this.bundle, this.parent := id, bundle, parent;
      successor0, successor1, height := null, null, 1;
    }

    function Successor(d: Side): TreeNode?
      reads this`successor0, this`successor1
    {
      if d.L? then successor0 else successor1
    }

    method SetSuccessor(d: Side, n: TreeNode?)
      modifies this`successor0, this`successor1
      ensures successor0 == (if d.L? then n else old(successor0))
      ensures successor1 == (if d.R? then n else old(successor1))
    {
      if d.L? { successor0 := n; } else { successor1 := n; }
    }
  }

  datatype Shape = Leaf | Fork(left: Shape, node: TreeNode, right: Shape) {
    ghost function Sub(d: Side): Shape
      requires Fork?
    {
      if d.L? then left else right
    }
  }

  /** A fork whose sub-tree on side `d` is `near`. */
  ghost function Join(d: Side, near: Shape, x: TreeNode, far: Shape): Shape {
    if d.L? then Fork(near, x, far) else Fork(far, x, near)
  }

  /** Where a sub-tree hangs: on side `side` of `node`, whose other sub-tree is `sibling`. */
  datatype Path = Top | Step(side: Side, node: TreeNode, sibling: Shape, up: Path)

  ghost function Plug(path: Path, s: Shape): Shape
    decreases path
  {
    match path
    case Top => s
    case Step(d, x, sib, up) => Plug(up, Join(d, s, x, sib))
  }

  /** `path` followed upwards by `base`. */
  ghost function Graft(path: Path, base: Path): Path {
    match path
    case Top => base
    case Step(d, x, sib, up) => Step(d, x, sib, Graft(up, base))
  }

  lemma {:induction false} PlugGraft(path: Path, base: Path, s: Shape)
    ensures Plug(Graft(path, base), s) == Plug(base, Plug(path, s))
    decreases path
  {
    match path
    case Top =>
    case Step(d, x, sib, up) => PlugGraft(up, base, Join(d, s, x, sib));
  }

  // ---- nodes, heights, balance ----

  ghost function Refs(s: Shape): set<TreeNode> {
    match s
    case Leaf => {}
    case Fork(l, x, r) => {x} + Refs(l) + Refs(r)
  }

  ghost function PathRefs(path: Path): set<TreeNode> {
    match path
    case Top => {}
    case Step(_, x, sib, up) => {x} + Refs(sib) + PathRefs(up)
  }

  lemma {:induction false} RefsOfPlug(path: Path, s: Shape)
    ensures Refs(Plug(path, s)) == PathRefs(path) + Refs(s)
    decreases path
  {
    match path
    case Top =>
    case Step(d, x, sib, up) => RefsOfPlug(up, Join(d, s, x, sib));
  }

  lemma {:induction false} RefsOfGraft(path: Path, base: Path)
    ensures PathRefs(Graft(path, base)) == PathRefs(path) + PathRefs(base)
    decreases path
  {
    match path
    case Top =>
    case Step(d, x, sib, up) => RefsOfGraft(up, base);
  }

  ghost function Max(a: int, b: int): int { if a > b then a else b }

  ghost function Height(s: Shape): nat {
    match s
    case Leaf => 0
    case Fork(l, _, r) => 1 + Max(Height(l), Height(r))
  }

  ghost function Balance(s: Shape): int {
    match s
    case Leaf => 0
    case Fork(l, _, r) => Height(l) - Height(r)
  }

  ghost predicate Balanced(s: Shape) {
    match s
    case Leaf => true
    case Fork(l, _, r) => -1 <= Balance(s) <= 1 && Balanced(l) && Balanced(r)
  }

  /** Every fork of `path` would be balanced if the hole held a sub-tree of height `h`. */
  ghost predicate PathBalanced(path: Path, h: nat) {
    match path
    case Top => true
    case Step(_, _, sib, up) =>
      -1 <= h - Height(sib) <= 1 && Balanced(sib) && PathBalanced(up, 1 + Max(h, Height(sib)))
  }

  lemma {:induction false} BalancedJoin(d: Side, s: Shape, x: TreeNode, sib: Shape)
    ensures Height(Join(d, s, x, sib)) == 1 + Max(Height(s), Height(sib))
    ensures Balanced(Join(d, s, x, sib)) <==> Balanced(s) && Balanced(sib) && -1 <= Height(s) - Height(sib) <= 1
  {
  }

  lemma {:induction false} BalancedPlug(path: Path, s: Shape)
    ensures Balanced(Plug(path, s)) <==> Balanced(s) && PathBalanced(path, Height(s))
    decreases path
  {
    match path
    case Top =>
    case Step(d, x, sib, up) =>
      BalancedJoin(d, s, x, sib);
      BalancedPlug(up, Join(d, s, x, sib));
  }

  lemma {:induction false} BalancedGraft(path: Path, d: Side, x: TreeNode, y: TreeNode, sib: Shape, up: Path, h: nat)
    requires PathBalanced(Graft(path, Step(d, x, sib, up)), h)
    ensures PathBalanced(Graft(path, Step(d, y, sib, up)), h)
    decreases path
  {
    match path
    case Top =>
    case Step(_, _, s', up') => BalancedGraft(up', d, x, y, sib, up, 1 + Max(h, Height(s')));
  }

  // ---- order of ids ----

  /** `s` is a search tree all of whose ids lie strictly between `lo` and `hi`. */
  ghost predicate Within(s: Shape, lo: int, hi: int) {
    match s
    case Leaf => true
    case Fork(l, x, r) => lo < x.id < hi && Within(l, lo, x.id) && Within(r, x.id, hi)
  }

  lemma {:induction false} WithinWider(s: Shape, lo: int, hi: int, lo': int, hi': int)
    requires Within(s, lo, hi) && lo' <= lo && hi <= hi'
    ensures Within(s, lo', hi')
  {
    match s
    case Leaf =>
    case Fork(l, x, r) => WithinWider(l, lo, x.id, lo', x.id); WithinWider(r, x.id, hi, x.id, hi');
  }

  lemma {:induction false} RefsWithin(s: Shape, lo: int, hi: int)
    requires Within(s, lo, hi)
    ensures forall r <- Refs(s) :: lo < r.id < hi
  {
    match s
    case Leaf =>
    case Fork(l, x, r) => RefsWithin(l, lo, x.id); RefsWithin(r, x.id, hi);
  }

  /** Lower end of the range of ids that may stand in the hole of `path`. */
  ghost function Lo(path: Path, lo: int): int {
    match path
    case Top => lo
    case Step(d, x, _, up) => if d.L? then Lo(up, lo) else x.id
  }

  ghost function Hi(path: Path, hi: int): int {
    match path
    case Top => hi
    case Step(d, x, _, up) => if d.L? then x.id else Hi(up, hi)
  }

  ghost predicate PathWithin(path: Path, lo: int, hi: int) {
    match path
    case Top => true
    case Step(d, x, sib, up) =>
      && Lo(up, lo) < x.id < Hi(up, hi)
      && (if d.L? then Within(sib, x.id, Hi(up, hi)) else Within(sib, Lo(up, lo), x.id))
      && PathWithin(up, lo, hi)
  }

  lemma {:induction false} WithinPlug(path: Path, s: Shape, lo: int, hi: int)
    ensures Within(Plug(path, s), lo, hi) <==> PathWithin(path, lo, hi) && Within(s, Lo(path, lo), Hi(path, hi))
    decreases path
  {
    match path
    case Top =>
    case Step(d, x, sib, up) => WithinPlug(up, Join(d, s, x, sib), lo, hi);
  }

  /** No node above or beside the hole carries an id that belongs into the hole. */
  lemma {:induction false} PathRefsOutside(path: Path, lo: int, hi: int)
    requires PathWithin(path, lo, hi)
    ensures lo <= Lo(path, lo) && Hi(path, hi) <= hi
    ensures forall r <- PathRefs(path) :: lo < r.id < hi && !(Lo(path, lo) < r.id < Hi(path, hi))
    decreases path
  {
    match path
    case Top =>
    case Step(d, x, sib, up) =>
      PathRefsOutside(up, lo, hi);
      if d.L? { RefsWithin(sib, x.id, Hi(up, hi)); } else { RefsWithin(sib, Lo(up, lo), x.id); }
  }

  // ---- contents ----

  /** Two nodes of a search tree never share an id. */
  lemma {:induction false} IdsDistinct(s: Shape, lo: int, hi: int)
    requires Within(s, lo, hi)
    ensures forall a, b :: a in Refs(s) && b in Refs(s) && a.id == b.id ==> a == b
  {
    match s
    case Leaf =>
    case Fork(l, x, r) =>
      RefsWithin(l, lo, x.id);
      RefsWithin(r, x.id, hi);
      IdsDistinct(l, lo, x.id);
      IdsDistinct(r, x.id, hi);
  }

  // ---- rebalancing as a function on shapes ----

  /** Moves the root of the sub-tree on side `d` to the top. */
  ghost function Rotate(d: Side, s: Shape): Shape
    requires s.Fork? && s.Sub(d).Fork?
  {
    var y := s.Sub(d);
    Join(d.Other(), Join(d, y.Sub(d.Other()), s.node, s.Sub(d.Other())), y.node, y.Sub(d))
  }

  /** The higher side of a fork that is out of balance by two. */
  ghost function Heavy(s: Shape): Side { if Balance(s) > 0 then L else R }

  /** The heavy sub-tree leans to the inside, so it has to be rotated first. */
  ghost predicate LeansInside(s: Shape)
    requires s.Fork?
  {
    if Heavy(s).L? then Balance(s.left) < 0 else Balance(s.right) > 0
  }

  /** One turn of the loop of rebalance_from_nodeptr. */
  ghost function Fix(s: Shape): Shape {
    if !s.Fork? || -1 <= Balance(s) <= 1 || !s.Sub(Heavy(s)).Fork? then s
    else
      var d := Heavy(s);
      if !LeansInside(s) then Rotate(d, s)
      else if !s.Sub(d).Sub(d.Other()).Fork? then s
      else Rotate(d, Join(d, Rotate(d.Other(), s.Sub(d)), s.node, s.Sub(d.Other())))
  }

  /** `s` stands where a sub-tree of height `h` used to stand and is at most one lower or higher once fixed. */
  ghost predicate Fixable(s: Shape, h: nat) {
    && s.Fork? && Balanced(s.left) && Balanced(s.right)
    && -2 <= Balance(s) <= 2
    && -1 <= Height(Fix(s)) - h <= 1
  }

  lemma {:induction false} SingleRotation(d: Side, s: Shape)
    requires s.Fork? && Balanced(s.left) && Balanced(s.right)
    requires Height(s.Sub(d)) == Height(s.Sub(d.Other())) + 2
    requires s.Sub(d).Fork? && Height(s.Sub(d).Sub(d)) >= Height(s.Sub(d).Sub(d.Other()))
    ensures Balanced(Rotate(d, s)) && Height(s) - 1 <= Height(Rotate(d, s)) <= Height(s)
  {
    var y := s.Sub(d);
    var inner := Join(d, y.Sub(d.Other()), s.node, s.Sub(d.Other()));
    assert Height(inner) == 1 + Height(y.Sub(d.Other())) && Balanced(inner);
  }

  lemma {:induction false} DoubleRotation(d: Side, s: Shape)
    requires s.Fork? && Balanced(s.left) && Balanced(s.right)
    requires Height(s.Sub(d)) == Height(s.Sub(d.Other())) + 2
    requires s.Sub(d).Fork? && Height(s.Sub(d).Sub(d)) < Height(s.Sub(d).Sub(d.Other()))
    requires s.Sub(d).Sub(d.Other()).Fork?
    ensures var t := Rotate(d, Join(d, Rotate(d.Other(), s.Sub(d)), s.node, s.Sub(d.Other())));
            Balanced(t) && Height(t) == Height(s) - 1
  {
    var y := s.Sub(d);
    var z := y.Sub(d.Other());
    var near := Join(d, y.Sub(d), y.node, z.Sub(d));
    var far := Join(d, z.Sub(d.Other()), s.node, s.Sub(d.Other()));
    assert Balanced(near) && Balanced(far) && Height(near) == Height(far) == Height(s.Sub(d)) - 1;
    assert Rotate(d, Join(d, Rotate(d.Other(), y), s.node, s.Sub(d.Other()))) == Join(d, near, z.node, far);
  }

  lemma {:induction false} FixBalances(s: Shape)
    requires s.Fork? && Balanced(s.left) && Balanced(s.right) && -2 <= Balance(s) <= 2
    ensures Fix(s).Fork? && Balanced(Fix(s))
    ensures Height(s) - 1 <= Height(Fix(s)) <= Height(s)
    ensures -1 <= Balance(s) <= 1 ==> Height(Fix(s)) == Height(s)
  {
    if Balance(s) < -1 || Balance(s) > 1 {
      var d := Heavy(s);
      if LeansInside(s) { DoubleRotation(d, s); } else { SingleRotation(d, s); }
    }
  }

  lemma {:induction false} RotateKeeps(d: Side, s: Shape, lo: int, hi: int)
    requires s.Fork? && s.Sub(d).Fork?
    requires Within(s, lo, hi)
    ensures Within(Rotate(d, s), lo, hi)
    ensures Refs(Rotate(d, s)) == Refs(s)
  {
  }

  lemma {:induction false} FixKeeps(s: Shape, lo: int, hi: int)
    requires s.Fork? && Balanced(s.left) && Balanced(s.right) && -2 <= Balance(s) <= 2
    requires Within(s, lo, hi)
    ensures Within(Fix(s), lo, hi)
    ensures Refs(Fix(s)) == Refs(s)
  {
    if Balance(s) < -1 || Balance(s) > 1 {
      var d := Heavy(s);
      assert s.Sub(d).Fork?;
      if LeansInside(s) {
        assert s.Sub(d).Sub(d.Other()).Fork?;
        var inner := Rotate(d.Other(), s.Sub(d));
        if d.L? { RotateKeeps(R, s.left, lo, s.node.id); } else { RotateKeeps(L, s.right, s.node.id, hi); }
        RotateKeeps(d, Join(d, inner, s.node, s.Sub(d.Other())), lo, hi);
      } else {
        RotateKeeps(d, s, lo, hi);
      }
    }
  }

  /** Rebalancing from the hole of `path` to the root, `s` being the sub-tree in the hole. */
  ghost function RebalanceUp(path: Path, s: Shape): Shape
    decreases path
  {
    match path
    case Top => Fix(s)
    case Step(d, x, sib, up) => RebalanceUp(up, Join(d, Fix(s), x, sib))
  }

  /** A sub-tree that changed its height by at most one leaves the fork above it fixable. */
  lemma {:induction false} FixableAbove(d: Side, t: Shape, x: TreeNode, sib: Shape, h: nat)
    requires Balanced(t) && Balanced(sib)
    requires -1 <= Height(t) - h <= 1 && -1 <= h - Height(sib) <= 1
    ensures Fixable(Join(d, t, x, sib), 1 + Max(h, Height(sib)))
  {
    FixBalances(Join(d, t, x, sib));
  }

  /** Fixing the sub-tree in a hole keeps the nodes and the order of the whole tree. */
  lemma {:induction false} FixInPlace(path: Path, s: Shape, lo: int, hi: int)
    requires s.Fork? && Balanced(s.left) && Balanced(s.right) && -2 <= Balance(s) <= 2
    requires Within(Plug(path, s), lo, hi)
    ensures Within(Plug(path, Fix(s)), lo, hi)
    ensures Refs(Plug(path, Fix(s))) == Refs(Plug(path, s))
  {
    WithinPlug(path, s, lo, hi);
    FixKeeps(s, Lo(path, lo), Hi(path, hi));
    WithinPlug(path, Fix(s), lo, hi);
    RefsOfPlug(path, s);
    RefsOfPlug(path, Fix(s));
  }

  /** The pass leaves a balanced search tree with the same nodes. */
  lemma {:induction false} RebalanceUpCorrect(path: Path, s: Shape, h: nat, lo: int, hi: int)
    requires Fixable(s, h) && PathBalanced(path, h)
    requires Within(Plug(path, s), lo, hi)
    ensures Balanced(RebalanceUp(path, s))
    ensures Within(RebalanceUp(path, s), lo, hi)
    ensures Refs(RebalanceUp(path, s)) == Refs(Plug(path, s))
    decreases path
  {
    FixBalances(s);
    FixInPlace(path, s, lo, hi);
    var t := Fix(s);
    match path
    case Top =>
    case Step(d, x, sib, up) =>
      FixableAbove(d, t, x, sib, h);
      RebalanceUpCorrect(up, Join(d, t, x, sib), 1 + Max(h, Height(sib)), lo, hi);
  }

  // ---- heights fit the int8_t field ----

  ghost function Size(s: Shape): nat {
    match s
    case Leaf => 0
    case Fork(l, _, r) => Size(l) + 1 + Size(r)
  }

  /** The fewest nodes a balanced tree of height `h` can have. */
  ghost function MinNodes(h: nat): nat {
    if h == 0 then 0 else if h == 1 then 1 else 1 + MinNodes(h - 1) + MinNodes(h - 2)
  }

  lemma {:induction false} MinNodesMonotone(g: nat, h: nat)
    requires g <= h
    ensures MinNodes(g) <= MinNodes(h)
    decreases h - g
  {
    if g < h {
      MinNodesMonotone(g, h - 1);
    }
  }

  lemma {:induction false} BalancedSize(s: Shape)
    requires Balanced(s)
    ensures Size(s) >= MinNodes(Height(s))
  {
    match s
    case Leaf =>
    case Fork(l, _, r) =>
      BalancedSize(l);
      BalancedSize(r);
      if Height(s) >= 2 {
        MinNodesMonotone(Height(s) - 2, Height(l));
        MinNodesMonotone(Height(s) - 2, Height(r));
      }
  }

  /** Distinct ids strictly between `lo` and `hi` bound the number of nodes. */
  lemma {:induction false} SizeWithin(s: Shape, lo: int, hi: int)
    requires Within(s, lo, hi) && lo < hi
    ensures Size(s) <= hi - lo - 1
  {
    match s
    case Leaf =>
    case Fork(l, x, r) => SizeWithin(l, lo, x.id); SizeWithin(r, x.id, hi);
  }

  /** With 16-bit ids a balanced tree is at most 22 high, and a fork under repair at most 23. */
  lemma {:induction false} HeightFits(s: Shape)
    requires Within(s, 0, 0x1_0000)
    ensures Balanced(s) ==> Height(s) <= 22
    ensures s.Fork? && Balanced(s.left) && Balanced(s.right) ==> Height(s) <= 23
  {
    BalancedFits(s, 0, 0x1_0000);
    if s.Fork? {
      BalancedFits(s.left, 0, s.node.id);
      BalancedFits(s.right, s.node.id, 0x1_0000);
    }
  }

  lemma {:induction false} BalancedFits(s: Shape, lo: int, hi: int)
    requires Within(s, lo, hi) && lo < hi && hi - lo <= 0x1_0000
    ensures Balanced(s) ==> Height(s) <= 22
  {
    if Balanced(s) {
      BalancedSize(s);
      SizeWithin(s, lo, hi);
      if Height(s) >= 23 { MinNodesMonotone(23, Height(s)); }
      MinNodesOf23();
    }
  }

  lemma MinNodesOf23()
    ensures MinNodes(23) == 75024
  {
    assert MinNodes(6) == 20 && MinNodes(7) == 33;
    assert MinNodes(8) == 54 && MinNodes(9) == 88;
    assert MinNodes(10) == 143 && MinNodes(11) == 232;
    assert MinNodes(12) == 376 && MinNodes(13) == 609;
    assert MinNodes(14) == 986 && MinNodes(15) == 1596;
    assert MinNodes(16) == 2583 && MinNodes(17) == 4180;
    assert MinNodes(18) == 6764 && MinNodes(19) == 10945;
    assert MinNodes(20) == 17710 && MinNodes(21) == 28656;
  }

  // ---- taking the in-order neighbour of a node out of its sub-tree ----

  /** Every step of `path` leads down on side `d`. */
  ghost predicate Spine(path: Path, d: Side) {
    path.Step? ==> path.side == d && Spine(path.up, d)
  }

  /** Along a spine the bound on the side it leads to can be tightened down to the hole. */
  lemma {:induction false} SpineTighter(path: Path, d: Side, lo: int, hi: int, b: int)
    requires Spine(path, d) && PathWithin(path, lo, hi)
    requires if d.R? then Lo(path, lo) < b <= hi else lo <= b < Hi(path, hi)
    ensures d.R? ==> PathWithin(path, lo, b) && Hi(path, b) == b && Hi(path, hi) == hi
    ensures d.L? ==> PathWithin(path, b, hi) && Lo(path, b) == b && Lo(path, lo) == lo
    decreases path
  {
    match path
    case Top =>
    case Step(_, x, sib, up) => SpineTighter(up, d, lo, hi, b);
  }

  /**
   * The new tree when `m`, the last node of a spine, takes the place of `del`: its own sub-tree `ml` fills
   * the hole.
   */
  ghost function Spliced(e: Side, q: Path, m: TreeNode, far: Shape, path: Path): Path {
    Graft(q, Step(e, m, far, path))
  }

  lemma {:induction false} SpliceOrder(e: Side, q: Path, ml: Shape, m: TreeNode, del: TreeNode, far: Shape,
      lo: int, hi: int)
    requires Spine(q, e.Other())
    requires Within(Join(e, Plug(q, Join(e, ml, m, Leaf)), del, far), lo, hi)
    ensures Within(Join(e, Plug(q, ml), m, far), lo, hi)
  {
    var last := Join(e, ml, m, Leaf);
    if e.L? {
      WithinPlug(q, last, lo, del.id);
      PathRefsOutside(q, lo, del.id);
      SpineTighter(q, R, lo, del.id, m.id);
      WithinPlug(q, ml, lo, m.id);
      WithinWider(far, del.id, hi, m.id, hi);
    } else {
      WithinPlug(q, last, del.id, hi);
      PathRefsOutside(q, del.id, hi);
      SpineTighter(q, L, del.id, hi, m.id);
      WithinPlug(q, ml, m.id, hi);
      WithinWider(far, lo, del.id, lo, m.id);
    }
  }

  /** Replacing `del` by its in-order neighbour `m` keeps a search tree and drops just `del`. */
  lemma {:induction false} SpliceCorrect(e: Side, q: Path, ml: Shape, m: TreeNode, del: TreeNode, far: Shape,
      path: Path, lo: int, hi: int)
    requires Spine(q, e.Other())
    requires var whole := Plug(path, Join(e, Plug(q, Join(e, ml, m, Leaf)), del, far));
             Within(whole, lo, hi) && Balanced(whole)
    ensures var g := Spliced(e, q, m, far, path);
      && Within(Plug(g, ml), lo, hi) && Balanced(ml) && PathBalanced(g, 1 + Height(ml))
      && PathRefs(g) + Refs(ml) == Refs(Plug(path, Join(e, Plug(q, Join(e, ml, m, Leaf)), del, far))) - {del}
  {
    var last := Join(e, ml, m, Leaf);
    var s := Join(e, Plug(q, last), del, far);
    WithinPlug(path, s, lo, hi);
    SpliceOrder(e, q, ml, m, del, far, Lo(path, lo), Hi(path, hi));
    WithinPlug(path, Join(e, Plug(q, ml), m, far), lo, hi);
    PlugGraft(q, Step(e, m, far, path), ml);
    SpliceBalance(e, q, last, m, del, far, path);
    SpliceRefs(e, q, ml, m, del, far, path, lo, hi);
  }

  lemma {:induction false} SpliceBalance(e: Side, q: Path, last: Shape, m: TreeNode, del: TreeNode, far: Shape,
      path: Path)
    requires Balanced(Plug(path, Join(e, Plug(q, last), del, far)))
    ensures Balanced(last) && PathBalanced(Graft(q, Step(e, m, far, path)), Height(last))
  {
    PlugGraft(q, Step(e, del, far, path), last);
    BalancedPlug(Graft(q, Step(e, del, far, path)), last);
    BalancedGraft(q, e, del, m, far, path, Height(last));
  }

  lemma {:induction false} SpliceRefs(e: Side, q: Path, ml: Shape, m: TreeNode, del: TreeNode, far: Shape, path: Path,
      lo: int, hi: int)
    requires Within(Plug(path, Join(e, Plug(q, Join(e, ml, m, Leaf)), del, far)), lo, hi)
    ensures PathRefs(Graft(q, Step(e, m, far, path))) + Refs(ml)
         == Refs(Plug(path, Join(e, Plug(q, Join(e, ml, m, Leaf)), del, far))) - {del}
  {
    var near := Plug(q, Join(e, ml, m, Leaf));
    var s := Join(e, near, del, far);
    RefsOfPlug(path, s);
    RefsOfPlug(q, Join(e, ml, m, Leaf));
    RefsOfGraft(q, Step(e, m, far, path));
    WithinPlug(path, s, lo, hi);
    PathRefsOutside(path, lo, hi);
    var l, h := Lo(path, lo), Hi(path, hi);
    RefsWithin(near, if e.L? then l else del.id, if e.L? then del.id else h);
    RefsWithin(far, if e.L? then del.id else l, if e.L? then h else del.id);
  }
}
