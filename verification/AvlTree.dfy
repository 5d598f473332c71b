/**
 * The search tree of the bundle store (components/upcn/bundle_storage_manager.c): linked nodes with
 * parent links and cached heights, balanced after every insertion and deletion.
 */
module AvlTree {
  import opened Basics
  import opened AvlShapes

  // ---- what the linked nodes have to look like ----

  /** `n` is the root of linked nodes of shape `s`, with exact heights, hanging below `p`. */
  ghost predicate Linked(n: TreeNode?, s: Shape, p: TreeNode?)
    reads Refs(s)
    decreases s
  {
    match s
    case Leaf => n == null
    case Fork(l, x, r) =>
      && n == x && x.parent == p && x.height == Height(s)
      && Linked(x.successor0, l, x) && Linked(x.successor1, r, x)
  }

  /** As `Linked`, except that the height cached in the topmost node may be stale. */
  ghost predicate Hooked(n: TreeNode?, s: Shape, p: TreeNode?)
    reads Refs(s)
  {
    && s.Fork? && n == s.node && s.node.parent == p
    && Linked(s.node.successor0, s.left, s.node) && Linked(s.node.successor1, s.right, s.node)
  }

  /**
   * The nodes of `path` lead from `top`, below `topParent`, down to the hole `n` below `p`; their heights may
   * be stale.
   */
  ghost predicate Seg(path: Path, top: TreeNode?, topParent: TreeNode?, n: TreeNode?, p: TreeNode?)
    reads PathRefs(path)
    decreases path
  {
    match path
    case Top => top == n && topParent == p
    case Step(d, x, sib, up) =>
      && p == x && x.Successor(d) == n && Linked(x.Successor(d.Other()), sib, x)
      && Seg(up, top, topParent, x, x.parent)
  }

  ghost function ParentOf(path: Path): TreeNode? {
    if path.Top? then null else path.node
  }

  /** The three parts of a fork share no node. */
  lemma {:induction false} Apart(s: Shape, lo: int, hi: int)
    requires s.Fork? && Within(s, lo, hi)
    ensures s.node !in Refs(s.left) && s.node !in Refs(s.right) && Refs(s.left) !! Refs(s.right)
  {
    RefsWithin(s.left, lo, s.node.id);
    RefsWithin(s.right, s.node.id, hi);
  }

  method RecalcHeight(n: TreeNode, ghost s: Shape, ghost p: TreeNode?, ghost lo: int, ghost hi: int)
    requires Hooked(n, s, p) && Within(s, lo, hi)
    modifies n`height
    ensures Linked(n, s, p)
  {
    Apart(s, lo, hi);
    var h0, h1 := HeightOf(n.successor0), HeightOf(n.successor1);
    n.height := 1 + (if h0 > h1 then h0 else h1);
  }

  method Reparent(t: TreeNode?, p: TreeNode?, ghost b: Shape, ghost q: TreeNode?, ghost lo: int, ghost hi: int)
    requires Linked(t, b, q) && Within(b, lo, hi)
    modifies (if t == null then {} else {t})`parent
    ensures Linked(t, b, p)
  {
    if t != null {
      Apart(b, lo, hi);
      t.parent := p;
    }
  }

  /** The parts of a fork that a rotation moves: apart from each other, linked and ordered. */
  lemma {:induction false} RotationParts(d: Side, s: Shape, p: TreeNode?, lo: int, hi: int)
    requires s.Fork? && s.Sub(d).Fork?
    requires Hooked(s.node, s, p) && Within(s, lo, hi)
    ensures var y := s.Sub(d); var a, b, c := y.Sub(d), y.Sub(d.Other()), s.Sub(d.Other());
      && s.node != y.node
      && s.node !in Refs(a) && s.node !in Refs(b) && s.node !in Refs(c)
      && y.node !in Refs(a) && y.node !in Refs(b) && y.node !in Refs(c)
      && Refs(b) !! Refs(a) && Refs(b) !! Refs(c)
      && s.node.Successor(d) == y.node && Linked(s.node.Successor(d.Other()), c, s.node)
      && Linked(y.node.Successor(d), a, y.node) && Linked(y.node.Successor(d.Other()), b, y.node)
      && {s.node, y.node} + Refs(b) <= Refs(s)
      && Within(b, lo, hi)
      && Within(Join(d, b, s.node, c), lo, hi)
      && Within(Rotate(d, s), lo, hi)
  {
    RotateKeeps(d, s, lo, hi);
    Apart(s, lo, hi);
    var y := s.Sub(d);
    assert Linked(y.node, y, s.node);
    if d.L? {
      Apart(y, lo, s.node.id);
      WithinWider(y.right, y.node.id, s.node.id, lo, hi);
      WithinWider(Fork(y.right, s.node, s.right), y.node.id, hi, lo, hi);
    } else {
      Apart(y, s.node.id, hi);
      WithinWider(y.left, s.node.id, y.node.id, lo, hi);
      WithinWider(Fork(s.left, s.node, y.left), lo, y.node.id, lo, hi);
    }
  }

  /** The pointer updates of a rotation: `y` moves above `x` and hands its inner sub-tree `b` to it. */
  method Relink(d: Side, x: TreeNode, y: TreeNode, ghost a: Shape, ghost b: Shape, ghost c: Shape, ghost lo: int,
      ghost hi: int)
    requires x != y && x !in Refs(a) && y !in Refs(a) && x !in Refs(b) && y !in Refs(b) && x !in Refs(c)
             && y !in Refs(c)
    requires Refs(b) !! Refs(a) && Refs(b) !! Refs(c) && Within(b, lo, hi)
    requires Linked(y.Successor(d), a, y) && Linked(y.Successor(d.Other()), b, y)
             && Linked(x.Successor(d.Other()), c, x)
    modifies {x, y} + Refs(b)
    ensures y.parent == old(x.parent) && y.Successor(d.Other()) == x && x.parent == y
    ensures Linked(y.Successor(d), a, y) && Linked(x.Successor(d), b, x) && Linked(x.Successor(d.Other()), c, x)
  {
    var t2 := y.Successor(d.Other());
    ghost var t1, t3 := y.Successor(d), x.Successor(d.Other());
    ghost var la, lb, lc := Linked(t1, a, y), Linked(t2, b, y), Linked(t3, c, x);
    assert t2 != null ==> t2 in Refs(b);
    assert allocated(Refs(a)) && allocated(Refs(b)) && allocated(Refs(c));
    y.SetSuccessor(d.Other(), x);
    y.parent := x.parent;
    x.parent := y;
    x.SetSuccessor(d, t2);
    assert la == Linked(t1, a, y) && lb == Linked(t2, b, y) && lc == Linked(t3, c, x);
    Reparent(t2, x, b, y, lo, hi);
    assert la == Linked(t1, a, y) && lc == Linked(t3, c, x);
  }

  /** rotate_right for `d == L`, rotate_left for `d == R`. */
  method RotateNodes(d: Side, oldTop: TreeNode, ghost s: Shape, ghost p: TreeNode?, ghost lo: int, ghost hi: int)
    returns (newTop: TreeNode)
    requires s.Fork? && s.Sub(d).Fork?
    requires Hooked(oldTop, s, p) && Within(s, lo, hi)
    modifies Refs(s)
    ensures Linked(newTop, Rotate(d, s), p)
  {
    RotationParts(d, s, p, lo, hi);
    ghost var y := s.Sub(d);
    ghost var a, b, c := y.Sub(d), y.Sub(d.Other()), s.Sub(d.Other());
    assert allocated(Refs(a)) && allocated(Refs(b)) && allocated(Refs(c));
    newTop := oldTop.Successor(d);
    Relink(d, oldTop, newTop, a, b, c, lo, hi);
    RecalcHeight(oldTop, Join(d, b, oldTop, c), newTop, lo, hi);
    RecalcHeight(newTop, Rotate(d, s), p, lo, hi);
  }

  function HeightOf(n: TreeNode?): int
    reads n
  {
    if n == null then 0 else n.height
  }

  function BalanceOf(n: TreeNode?): int
    reads n, if n == null then {} else {n.successor0, n.successor1}
  {
    if n == null then 0 else HeightOf(n.successor0) - HeightOf(n.successor1)
  }

  lemma {:induction false} BalanceOfLinked(n: TreeNode?, s: Shape, p: TreeNode?)
    requires Linked(n, s, p)
    ensures HeightOf(n) == Height(s) && BalanceOf(n) == Balance(s)
  {
  }

  /** Turns the inner part of the heavy side outwards before the main rotation. */
  method RotateInner(d: Side, node: TreeNode, ghost s: Shape, ghost p: TreeNode?, ghost lo: int, ghost hi: int)
    requires s.Fork? && s.Sub(d).Fork? && s.Sub(d).Sub(d.Other()).Fork?
    requires Hooked(node, s, p) && Within(s, lo, hi)
    modifies Refs(s)
    ensures var t := Join(d, Rotate(d.Other(), s.Sub(d)), s.node, s.Sub(d.Other()));
            Hooked(node, t, p) && Within(t, lo, hi) && Refs(t) == Refs(s)
  {
    ghost var heavy, far := s.Sub(d), s.Sub(d.Other());
    ghost var l, h := if d.L? then lo else node.id, if d.L? then node.id else hi;
    Apart(s, lo, hi);
    RotateKeeps(d.Other(), heavy, l, h);
    assert allocated(Refs(far)) && allocated(Refs(heavy));
    var child := node.Successor(d);
    ghost var other := node.Successor(d.Other());
    assert Linked(child, heavy, node) && Linked(other, far, node);
    var top := RotateNodes(d.Other(), child, heavy, node, l, h);
    node.SetSuccessor(d, top);
    assert Linked(top, Rotate(d.Other(), heavy), node) && Linked(other, far, node);
  }

  /** The single or double rotation that brings the heavy side `d` of `node` up. */
  method RotateHeavy(d: Side, node: TreeNode, ghost s: Shape, ghost p: TreeNode?, ghost lo: int, ghost hi: int)
    returns (top: TreeNode)
    requires Hooked(node, s, p) && Within(s, lo, hi)
    requires Balance(s) == (if d.L? then 2 else -2)
    modifies Refs(s)
    ensures Linked(top, Fix(s), p)
  {
    assert s.Sub(d).Fork? && d == Heavy(s);
    BalanceOfLinked(node.Successor(d), s.Sub(d), node);
    var inner := BalanceOf(node.Successor(d));
    if (if d.L? then inner < 0 else inner > 0) {
      assert LeansInside(s) && s.Sub(d).Sub(d.Other()).Fork?;
      RotateInner(d, node, s, p, lo, hi);
      top := RotateNodes(d, node, Join(d, Rotate(d.Other(), s.Sub(d)), s.node, s.Sub(d.Other())), p, lo, hi);
    } else {
      top := RotateNodes(d, node, s, p, lo, hi);
    }
  }

  /** The body of the loop of rebalance_from_nodeptr, up to the assignment to the slot. */
  method FixNodes(node: TreeNode, ghost s: Shape, ghost p: TreeNode?, ghost lo: int, ghost hi: int)
      returns (top: TreeNode)
    requires Hooked(node, s, p) && Within(s, lo, hi)
    requires -2 <= Balance(s) <= 2
    modifies Refs(s)
    ensures Linked(top, Fix(s), p)
  {
    RecalcHeight(node, s, p, lo, hi);
    BalanceOfLinked(node, s, p);
    var balance := BalanceOf(node);
    top := node;
    if balance == -2 {
      top := RotateHeavy(R, node, s, p, lo, hi);
    } else if balance == 2 {
      top := RotateHeavy(L, node, s, p, lo, hi);
    }
  }

  // ---- finding and detaching the in-order neighbour ----

  /** `m` is the node at the end of the spine `q` that starts at `top` below `del`; `ml` is its only sub-tree. */
  ghost predicate AtSpineEnd(e: Side, top: TreeNode?, del: TreeNode, m: TreeNode, q: Path, ml: Shape)
    reads PathRefs(q), m, Refs(ml)
  {
    && Spine(q, e.Other())
    && m.parent == (if q.Top? then del else q.node) && Seg(q, top, del, m, m.parent)
    && Linked(m.Successor(e), ml, m) && m.Successor(e.Other()) == null
  }

  /** Walks from `top`, the root of the sub-tree on side `e` of `del`, to its node next in order to `del`. */
  method SpineEnd(e: Side, top: TreeNode, del: TreeNode, ghost near: Shape)
      returns (m: TreeNode, ghost q: Path, ghost ml: Shape)
    requires Linked(top, near, del)
    ensures AtSpineEnd(e, top, del, m, q, ml)
    ensures Plug(q, Join(e, ml, m, Leaf)) == near
  {
    m := top;
    q := Top;
    ghost var rest := near;
    while m.Successor(e.Other()) != null
      invariant Linked(m, rest, if q.Top? then del else q.node) && Plug(q, rest) == near
      invariant Spine(q, e.Other()) && Seg(q, top, del, m, if q.Top? then del else q.node)
      decreases rest
    {
      assert rest == Join(e.Other(), rest.Sub(e.Other()), m, rest.Sub(e));
      q, rest, m := Step(e.Other(), m, rest.Sub(e), q), rest.Sub(e.Other()), m.Successor(e.Other());
    }
    ml := rest.Sub(e);
    assert rest == Join(e, ml, m, Leaf);
  }

  ghost function TopNode(path: Path): (n: TreeNode)
    requires path.Step?
    ensures n in PathRefs(path)
  {
    if path.up.Step? then TopNode(path.up) else path.node
  }

  /** The first node of a path that is linked from `top` is `top`. */
  lemma {:induction false} SegTop(path: Path, top: TreeNode?, tp: TreeNode?, n: TreeNode?, p: TreeNode?)
    requires path.Step? && Seg(path, top, tp, n, p)
    ensures top == TopNode(path)
    decreases path
  {
    if path.up.Step? { SegTop(path.up, top, tp, path.node, path.node.parent); }
  }

  /** Two linked paths, the lower one hanging in the hole of the upper one. */
  lemma {:induction false} SegGraft(q: Path, base: Path, root: TreeNode?, top: TreeNode?, tp: TreeNode?, n: TreeNode?,
      p: TreeNode?)
    requires Seg(q, top, tp, n, p) && Seg(base, root, null, top, tp)
    ensures Seg(Graft(q, base), root, null, n, p)
    decreases q
  {
    if q.Step? { SegGraft(q.up, base, root, top, tp, q.node, q.node.parent); }
  }

  lemma {:induction false} StepApartIn(path: Path, lo: int, hi: int)
    requires path.Step? && PathWithin(path, lo, hi)
    ensures path.node !in Refs(path.sibling) && path.node !in PathRefs(path.up)
            && Refs(path.sibling) !! PathRefs(path.up)
  {
    PathRefsOutside(path.up, lo, hi);
    if path.side.L? {
      RefsWithin(path.sibling, path.node.id, Hi(path.up, hi));
    } else {
      RefsWithin(path.sibling, Lo(path.up, lo), path.node.id);
    }
  }

  ghost function SiblingRefs(path: Path): set<TreeNode> {
    if path.Top? then {} else Refs(path.sibling) + SiblingRefs(path.up)
  }

  ghost function PathNodes(path: Path): set<TreeNode> {
    if path.Top? then {} else {path.node} + PathNodes(path.up)
  }

  /** The nodes of `path` except the first. */
  ghost function LowerNodes(path: Path): set<TreeNode> {
    if path.Top? || path.up.Top? then {} else {path.node} + LowerNodes(path.up)
  }

  /** As `Seg`, but silent about the parent of the first node. */
  ghost predicate LooseSeg(path: Path, top: TreeNode?, n: TreeNode?)
    reads PathNodes(path)`successor0, PathNodes(path)`successor1, LowerNodes(path)`parent, SiblingRefs(path)
    decreases path
  {
    match path
    case Top => top == n
    case Step(d, x, sib, up) =>
      && x.Successor(d) == n && Linked(x.Successor(d.Other()), sib, x)
      && (up.Step? ==> x.parent == up.node) && LooseSeg(up, top, x)
  }

  lemma {:induction false} Loosen(path: Path, top: TreeNode, tp: TreeNode?, n: TreeNode?)
    requires path.Step?
    ensures Seg(path, top, tp, n, path.node) <==> LooseSeg(path, top, n) && top == TopNode(path) && top.parent == tp
    decreases path
  {
    if path.up.Step? {
      Loosen(path.up, top, tp, path.node);
      assert Seg(path.up, top, tp, path.node, path.node.parent) ==> path.node.parent == path.up.node;
    } else {
      assert Seg(path.up, top, tp, path.node, path.node.parent) <==> top == path.node && tp == path.node.parent;
      assert LooseSeg(path.up, top, path.node) <==> top == path.node;
    }
  }

  /** Hangs the first node of a path below another parent. */
  method ReparentPath(top: TreeNode, p: TreeNode, ghost path: Path, ghost tp: TreeNode?, ghost n: TreeNode?,
      ghost lo: int, ghost hi: int)
    requires path.Step? && PathWithin(path, lo, hi)
    requires Seg(path, top, tp, n, path.node)
    modifies top`parent
    ensures Seg(path, top, p, n, path.node)
  {
    Loosen(path, top, tp, n);
    TopNodeApart(path, lo, hi);
    top.parent := p;
    Loosen(path, top, p, n);
  }

  lemma {:induction false} TopNodeApart(path: Path, lo: int, hi: int)
    requires path.Step? && PathWithin(path, lo, hi)
    ensures TopNode(path) !in LowerNodes(path) && TopNode(path) !in SiblingRefs(path)
    decreases path
  {
    StepApartIn(path, lo, hi);
    if path.up.Step? { TopNodeApart(path.up, lo, hi); }
  }

  lemma {:induction false} HandUpApart(q: Path, ml: Shape, lo: int, hi: int)
    requires q.Step? && PathWithin(q, lo, hi) && Within(ml, Lo(q, lo), Hi(q, hi))
    ensures q.node !in Refs(q.sibling) && q.node !in PathRefs(q.up) && q.node !in Refs(ml)
    ensures Refs(ml) !! Refs(q.sibling) && Refs(ml) !! PathRefs(q.up)
  {
    StepApartIn(q, lo, hi);
    PathRefsOutside(q, lo, hi);
    RefsWithin(ml, Lo(q, lo), Hi(q, hi));
  }

  /** Moves the only sub-tree of `m`, the end of the spine `q`, up to the parent of `m`. */
  method HandUp(e: Side, m: TreeNode, ghost q: Path, ghost ml: Shape, ghost top: TreeNode, ghost del: TreeNode,
      ghost lo: int, ghost hi: int)
    requires q.Step? && AtSpineEnd(e, top, del, m, q, ml)
    requires PathWithin(q, lo, hi) && Within(ml, Lo(q, lo), Hi(q, hi))
    requires m !in PathRefs(q) && m !in Refs(ml)
    modifies PathRefs(q), Refs(ml)
    ensures Seg(q, top, del, m.Successor(e), q.node) && Linked(m.Successor(e), ml, q.node)
  {
    HandUpApart(q, ml, lo, hi);
    assert allocated(PathRefs(q.up)) && allocated(Refs(q.sibling));
    var p, sub := m.parent, m.Successor(e);
    ghost var other := p.Successor(e);
    assert allocated(Refs(ml));
    assert sub != null ==> sub in Refs(ml);
    p.SetSuccessor(e.Other(), sub);
    Reparent(sub, p, ml, m, Lo(q, lo), Hi(q, hi));
    var h0, h1 := HeightOf(p.successor0), HeightOf(p.successor1);
    p.height := 1 + (if h0 > h1 then h0 else h1);
    assert Linked(other, q.sibling, p) && Seg(q.up, top, del, p, p.parent);
  }

  /** A place that holds a forward pointer: the root variable or a node's `successor[]` slot. */
  datatype Slot = RootSlot | ChildSlot(owner: TreeNode, side: Side)

  ghost function SlotOf(path: Path): Slot {
    if path.Top? then RootSlot else ChildSlot(path.node, path.side)
  }

  /** The slot that points to `p`, found through the parent of `p`. */
  method SlotTo(p: TreeNode, ghost d: Side) returns (slot: Slot)
    requires p.parent != null ==> p.parent.Successor(d) == p && p.parent.Successor(d.Other()) != p
    ensures slot == if p.parent == null then RootSlot else ChildSlot(p.parent, d)
  {
    if p.parent == null { return RootSlot; }
    if p == p.parent.successor0 { return ChildSlot(p.parent, L); }
    assert p == p.parent.successor1;
    return ChildSlot(p.parent, R);
  }

  /**
   * `m` carries the sub-trees of the node it replaces: `far` on one side, the shortened spine `q` with `ml`
   * at its end on side `e`.
   */
  ghost predicate TakenOver(e: Side, m: TreeNode, q: Path, ml: Shape, sub: TreeNode?, far: Shape)
    reads m`successor0, m`successor1, PathRefs(q), Refs(ml), Refs(far)
  {
    Linked(m.Successor(e.Other()), far, m) && NearTaken(e, m, q, ml, sub)
  }

  ghost predicate NearTaken(e: Side, m: TreeNode, q: Path, ml: Shape, sub: TreeNode?)
    reads m`successor0, m`successor1, PathRefs(q), Refs(ml)
  {
    && Linked(sub, ml, if q.Top? then m else q.node)
    && Seg(q, m.Successor(e), m, sub, if q.Top? then m else q.node)
  }

  /** Lines 195-205 (and 220-230): `m` leaves the spine and takes over the sub-tree on side `e`. */
  method LeaveSpine(e: Side, m: TreeNode, del: TreeNode, ghost q: Path, ghost ml: Shape, ghost top: TreeNode,
      ghost lo: int, ghost hi: int)
    requires q.Step? && AtSpineEnd(e, top, del, m, q, ml) && del.Successor(e) == top
    requires Within(Plug(q, Join(e, ml, m, Leaf)), lo, hi)
    requires del != m && del !in PathRefs(q) && del !in Refs(ml)
    modifies PathRefs(q), Refs(ml), m
    ensures m.Successor(e) == top && m.Successor(e.Other()) == old(m.Successor(e.Other())) && m.parent == old(m.parent)
    ensures Seg(q, top, m, old(m.Successor(e)), q.node) && Linked(old(m.Successor(e)), ml, q.node)
  {
    ghost var last := Join(e, ml, m, Leaf);
    WithinPlug(q, last, lo, hi);
    HoleApartIn(q, last, lo, hi);
    Apart(last, Lo(q, lo), Hi(q, hi));
    WithinWider(ml, if e.L? then Lo(q, lo) else m.id, if e.L? then m.id else Hi(q, hi), Lo(q, lo), Hi(q, hi));
    assert allocated(PathRefs(q)) && allocated(Refs(ml));
    ghost var sub := m.Successor(e);
    HandUp(e, m, q, ml, top, del, lo, hi);
    m.SetSuccessor(e, del.Successor(e));
    SegTop(q, top, del, sub, q.node);
    ReparentPath(m.Successor(e), m, q, del, sub, lo, hi);
  }

  lemma {:induction false} HoleApartIn(path: Path, s: Shape, lo: int, hi: int)
    requires PathWithin(path, lo, hi) && Within(s, Lo(path, lo), Hi(path, hi))
    ensures PathRefs(path) !! Refs(s)
  {
    PathRefsOutside(path, lo, hi);
    RefsWithin(s, Lo(path, lo), Hi(path, hi));
  }

  /** Only one of the two slots of the lowest node of a path points into the hole. */
  lemma {:induction false} HoleSlot(path: Path, top: TreeNode?, tp: TreeNode?, n: TreeNode)
    requires path.Step? && Seg(path, top, tp, n, path.node) && n !in Refs(path.sibling)
    ensures path.node.Successor(path.side) == n && path.node.Successor(path.side.Other()) != n
  {
  }

  /** The end `m` of the spine, its sub-tree and the spine itself are apart from each other and from `del` and `far`. */
  lemma {:induction false} SpineApart(e: Side, q: Path, ml: Shape, m: TreeNode, del: TreeNode, far: Shape,
      lo: int, hi: int)
    requires Within(Join(e, Plug(q, Join(e, ml, m, Leaf)), del, far), lo, hi)
    ensures m !in PathRefs(q) && m !in Refs(ml) && m !in Refs(far)
    ensures Refs(far) !! PathRefs(q) && Refs(far) !! Refs(ml)
    ensures del != m && del !in PathRefs(q) && del !in Refs(ml) && del !in Refs(far)
    ensures {m} + PathRefs(q) + Refs(ml) == Refs(Plug(q, Join(e, ml, m, Leaf)))
    ensures q.Step? ==> q.node !in PathRefs(q.up)
  {
    var near := Plug(q, Join(e, ml, m, Leaf));
    Apart(Join(e, near, del, far), lo, hi);
    RefsOfPlug(q, Join(e, ml, m, Leaf));
    var l, h := if e.L? then lo else del.id, if e.L? then del.id else hi;
    WithinPlug(q, Join(e, ml, m, Leaf), l, h);
    HoleApartIn(q, Join(e, ml, m, Leaf), l, h);
    Apart(Join(e, ml, m, Leaf), Lo(q, l), Hi(q, h));
    if q.Step? { StepApartIn(q, l, h); }
  }

  /** Lines 190-205 (and 216-230): finds the in-order neighbour of `del` on side `e` and lets it take over that side. */
  method TakeNear(e: Side, del: TreeNode, ghost near: Shape, ghost far: Shape, ghost lo: int, ghost hi: int)
    returns (m: TreeNode, ghost q: Path, ghost ml: Shape, ghost sub: TreeNode?)
    requires near.Fork? && Within(Join(e, near, del, far), lo, hi)
    requires Linked(del.Successor(e), near, del)
    modifies Refs(near)
    ensures Plug(q, Join(e, ml, m, Leaf)) == near && Spine(q, e.Other())
    ensures NearTaken(e, m, q, ml, sub) && m.parent == (if q.Top? then del else q.node)
  {
    var top := del.Successor(e);
    assert allocated(Refs(near));
    m, q, ml := SpineEnd(e, top, del, near);
    SpineApart(e, q, ml, m, del, far, lo, hi);
    sub := m.Successor(e);
    if q.Step? { SegTop(q, top, del, m, q.node); }
    if m != top {
      LeaveSpine(e, m, del, q, ml, top, if e.L? then lo else del.id, if e.L? then del.id else hi);
    }
  }

  /** Lines 206-209 (and 231-234): "re-hangs" the other sub-tree. */
  method TakeFar(e: Side, m: TreeNode, other: TreeNode?, ghost q: Path, ghost ml: Shape, ghost sub: TreeNode?,
      ghost del: TreeNode, ghost far: Shape, ghost lo: int, ghost hi: int)
    requires NearTaken(e, m, q, ml, sub) && Linked(other, far, del) && Within(far, lo, hi)
    requires m !in PathRefs(q) && m !in Refs(ml) && m !in Refs(far) && Refs(far) !! PathRefs(q) && Refs(far) !! Refs(ml)
    modifies m, Refs(far)
    ensures TakenOver(e, m, q, ml, sub, far) && m.parent == old(m.parent)
  {
    assert allocated(PathRefs(q)) && allocated(Refs(ml)) && allocated(Refs(far));
    ghost var near := m.Successor(e);
    m.SetSuccessor(e.Other(), other);
    Reparent(other, m, far, del, lo, hi);
    assert m.Successor(e) == near;
  }

  /** Lines 188-209 (and 214-234): the in-order neighbour of `del` on side `e` takes over both its sub-trees. */
  method TakeOver(e: Side, del: TreeNode, ghost near: Shape, ghost far: Shape, ghost lo: int, ghost hi: int)
    returns (m: TreeNode, ghost q: Path, ghost ml: Shape, ghost sub: TreeNode?)
    requires near.Fork? && Within(Join(e, near, del, far), lo, hi)
    requires Linked(del.Successor(e), near, del) && Linked(del.Successor(e.Other()), far, del)
    modifies Refs(near), Refs(far)
    ensures Plug(q, Join(e, ml, m, Leaf)) == near && Spine(q, e.Other())
    ensures TakenOver(e, m, q, ml, sub, far) && m.parent == (if q.Top? then del else q.node)
  {
    assert allocated(Refs(near)) && allocated(Refs(far));
    Apart(Join(e, near, del, far), lo, hi);
    m, q, ml, sub := TakeNear(e, del, near, far, lo, hi);
    SpineApart(e, q, ml, m, del, far, lo, hi);
    TakeFar(e, m, del.Successor(e.Other()), q, ml, sub, del, far, if e.L? then del.id else lo,
        if e.L? then hi else del.id);
  }

  // ---- the tree ----

  const MAX_ID := 0xFFFF

  /** The bundles held in a tree, by id. */
  ghost function ContentsOf(s: Shape): map<int, Bundle>
    requires Within(s, 0, MAX_ID + 1)
  {
    IdsDistinct(s, 0, MAX_ID + 1);
    map r | r in Refs(s) :: r.id := r.bundle
  }

  class Tree {
    var root: TreeNode?
    ghost var shape: Shape

    /** The linked nodes form a balanced search tree of shape `shape`, with parent links and exact heights. */
    ghost predicate Valid()
      reads this`root, this`shape, Refs(shape)
    {
      Linked(root, shape, null) && Within(shape, 0, MAX_ID + 1) && Balanced(shape)
    }

    /** The map from id to bundle that the tree stands for. */
    ghost function Contents(): map<int, Bundle>
      reads this`shape
      requires Within(shape, 0, MAX_ID + 1)
    {
      ContentsOf(shape)
    }

    /** The sub-tree `s` in the hole of `path` is where a node with `id` is or would have to be. */
    ghost predicate Located(path: Path, s: Shape, id: int)
      reads this`root, this`shape, PathRefs(path), Refs(s)
    {
      && Plug(path, s) == shape && Lo(path, 0) < id < Hi(path, MAX_ID + 1)
      && (s.Fork? ==> s.node.id == id)
      && Linked(if s.Fork? then s.node else null, s, ParentOf(path))
      && Seg(path, root, null, if s.Fork? then s.node else null, ParentOf(path))
    }

    /** The search has reached the sub-tree `s` that `slot` points to. */
    ghost predicate Searching(slot: Slot, path: Path, s: Shape, id: int)
      reads this`root, this`shape, PathRefs(path), Refs(s)
    {
      && slot == SlotOf(path) && s.Fork?
      && Plug(path, s) == shape && Lo(path, 0) < id < Hi(path, MAX_ID + 1)
      && Linked(s.node, s, ParentOf(path)) && Seg(path, root, null, s.node, ParentOf(path))
    }

    lemma Descend(path: Path, s: Shape, id: int, d: Side)
      requires Searching(SlotOf(path), path, s, id)
      requires if d.L? then id < s.node.id else id > s.node.id
      ensures var path' := Step(d, s.node, s.Sub(d.Other()), path);
        && Plug(path', s.Sub(d)) == shape && Lo(path', 0) < id < Hi(path', MAX_ID + 1)
        && Linked(s.node.Successor(d), s.Sub(d), s.node)
        && Seg(path', root, null, s.node.Successor(d), s.node)
    {
      assert Join(d, s.Sub(d), s.node, s.Sub(d.Other())) == s;
    }

    /** find_nodeptr */
    method FindSlot(id: int, insert: bool) returns (slot: Option<Slot>, ghost path: Path, ghost s: Shape)
      requires Valid() && 0 < id <= MAX_ID
      ensures Located(path, s, id)
      ensures slot == if s.Fork? then Some(SlotOf(path))
                      else if insert && path.Step? then Some(SlotOf(path.up))
                      else None
    {
      var node := RootSlot;
      path, s := Top, shape;
      if Deref(node) == null { return None, path, s; }
      while true
        invariant Searching(node, path, s, id)
        decreases s
      {
        var here := Deref(node);
        if id == here.id { return Some(node), path, s; }
        var d := if id < here.id then L else R;
        Descend(path, s, id, d);
        var prev := node;
        node := ChildSlot(here, d);
        path, s := Step(d, here, s.Sub(d.Other()), path), s.Sub(d);
        if Deref(node) == null {
          return if insert then Some(prev) else None, path, s;
        }
      }
    }

    /** `s` stands in the hole of `path`; above it and in its own root heights may be stale. */
    ghost predicate Focused(path: Path, s: Shape)
      reads this`root, this`shape, PathRefs(path), Refs(s)
    {
      && Hooked(if s.Fork? then s.node else null, s, ParentOf(path))
      && Seg(path, root, null, s.node, ParentOf(path))
      && Within(Plug(path, s), 0, MAX_ID + 1)
    }

    function Deref(slot: Slot): TreeNode?
      reads this`root, if slot.ChildSlot? then {slot.owner} else {}
    {
      if slot.RootSlot? then root else slot.owner.Successor(slot.side)
    }

    /** Stores `n` in the slot of the hole of `path`. */
    method SetHole(slot: Slot, n: TreeNode?, ghost path: Path, ghost was: TreeNode?)
      requires slot == SlotOf(path) && PathWithin(path, 0, MAX_ID + 1)
      requires Seg(path, root, null, was, ParentOf(path))
      modifies this`root
      modifies (if path.Step? then {path.node} else {})`successor0, (if path.Step? then {path.node} else {})`successor1
      ensures Seg(path, root, null, n, ParentOf(path))
      ensures path.Step? ==> root == old(root)
    {
      if slot.RootSlot? {
        root := n;
      } else {
        StepApart(path);
        assert allocated(Refs(path.sibling)) && allocated(PathRefs(path.up));
        ghost var other := slot.owner.Successor(slot.side.Other());
        slot.owner.SetSuccessor(slot.side, n);
        assert Linked(other, path.sibling, path.node);
      }
    }

    /** One turn of the loop of rebalance_from_nodeptr on the sub-tree that `slot` points to. */
    method FixAt(slot: Slot, ghost path: Path, ghost s: Shape) returns (top: TreeNode)
      requires Focused(path, s) && slot == SlotOf(path)
      requires Balanced(s.left) && Balanced(s.right) && -2 <= Balance(s) <= 2
      modifies this`root, this`shape, PathRefs(path), Refs(s)
      ensures Linked(top, Fix(s), ParentOf(path))
      ensures Seg(path, root, null, top, ParentOf(path))
    {
      ghost var lo, hi := Lo(path, 0), Hi(path, MAX_ID + 1);
      WithinPlug(path, s, 0, MAX_ID + 1);
      FixKeeps(s, lo, hi);
      HoleApart(path, s);
      assert allocated(PathRefs(path)) && allocated(Refs(s));
      var node := Deref(slot);
      top := FixNodes(node, s, ParentOf(path), lo, hi);
      SetHole(slot, top, path, node);
    }

    /** get_parent_fwd_ptr: the slot that points to the parent of `node`. */
    method ParentSlot(node: TreeNode, ghost path: Path, ghost hole: TreeNode?) returns (slot: Option<Slot>)
      requires PathWithin(path, 0, MAX_ID + 1)
      requires Seg(path, root, null, hole, ParentOf(path)) && node.parent == ParentOf(path)
      ensures slot == if path.Top? then None else Some(SlotOf(path.up))
    {
      if node.parent == null { return None; }
      if node.parent.parent == null { return Some(RootSlot); }
      StepApart(path);
      if node.parent == node.parent.parent.successor0 {
        return Some(ChildSlot(node.parent.parent, L));
      }
      assert node.parent == node.parent.parent.successor1;
      return Some(ChildSlot(node.parent.parent, R));
    }

    /** Moves the focus one step towards the root. */
    lemma {:induction false} Refocus(path: Path, t: Shape, n: TreeNode?)
      requires path.Step? && Linked(n, t, path.node) && Seg(path, root, null, n, path.node)
      requires Within(Plug(path, t), 0, MAX_ID + 1)
      ensures Focused(path.up, Join(path.side, t, path.node, path.sibling))
    {
    }

    /** Rebalancing `s` in the hole of `path`, to which `cur` points, will produce `goal`; `None` means that it has. */
    ghost predicate Rebalancing(cur: Option<Slot>, path: Path, s: Shape, h: nat, goal: Shape)
      reads this`root, this`shape, PathRefs(path), Refs(s), Refs(goal)
    {
      if cur.None? then Linked(root, goal, null)
      else
        && cur.value == SlotOf(path) && Focused(path, s)
        && Fixable(s, h) && PathBalanced(path, h) && RebalanceUp(path, s) == goal
    }

    /** A sub-tree `t` put where one of height `h` stood makes the fork above it ready for rebalancing. */
    lemma {:induction false} Ready(path: Path, t: Shape, n: TreeNode?, h: nat)
      requires path.Step? && PathBalanced(path, h) && Balanced(t) && -1 <= Height(t) - h <= 1
      requires Within(Plug(path, t), 0, MAX_ID + 1)
      requires Linked(n, t, path.node) && Seg(path, root, null, n, path.node)
      ensures var s1 := Join(path.side, t, path.node, path.sibling);
        && Rebalancing(Some(SlotOf(path.up)), path.up, s1, 1 + Max(h, Height(path.sibling)), RebalanceUp(path.up, s1))
        && PathRefs(path.up) + Refs(s1) == PathRefs(path) + Refs(t)
    {
      Refocus(path, t, n);
      RefsAbove(path, t);
      FixableAbove(path.side, t, path.node, path.sibling, h);
    }

    /** After the sub-tree in the hole has been fixed, rebalancing goes on above it or is done. */
    lemma {:induction false} Onward(path: Path, s: Shape, h: nat, top: TreeNode)
      requires Fixable(s, h) && PathBalanced(path, h) && Within(Plug(path, s), 0, MAX_ID + 1)
      requires Linked(top, Fix(s), ParentOf(path)) && Seg(path, root, null, top, ParentOf(path))
      ensures path.Top? ==> Linked(root, RebalanceUp(path, s), null)
      ensures path.Step? ==>
                var s' := Join(path.side, Fix(s), path.node, path.sibling);
                && Rebalancing(Some(SlotOf(path.up)), path.up, s', 1 + Max(h, Height(path.sibling)),
                    RebalanceUp(path, s))
                && PathRefs(path.up) + Refs(s') == PathRefs(path) + Refs(s)
    {
      Climb(path, s);
      FixBalances(s);
      if path.Step? { Ready(path, Fix(s), top, h); }
    }

    /** One whole turn: fix the sub-tree and move on to the slot of the parent. */
    method Turn(slot: Slot, ghost path: Path, ghost s: Shape, ghost h: nat, ghost goal: Shape)
      returns (next: Option<Slot>, ghost path': Path, ghost s': Shape, ghost h': nat)
      requires Rebalancing(Some(slot), path, s, h, goal)
      modifies this`root, this`shape, PathRefs(path), Refs(s)
      ensures Rebalancing(next, path', s', h', goal)
      ensures PathRefs(path') + Refs(s') == PathRefs(path) + Refs(s)
      ensures next.Some? ==> path.Step? && path' == path.up
    {
      Climb(path, s);
      var top := FixAt(slot, path, s);
      assert allocated(Refs(Fix(s))) && allocated(PathRefs(path));
      next := ParentSlot(top, path, top);
      Onward(path, s, h, top);
      path', s', h' := path, s, h;
      if path.Step? {
        path', s', h' := path.up, Join(path.side, Fix(s), path.node, path.sibling), 1 + Max(h, Height(path.sibling));
      }
    }

    /** rebalance_from_nodeptr */
    method RebalanceFrom(start: Slot, ghost path0: Path, ghost s0: Shape, ghost h0: nat)
      requires Rebalancing(Some(start), path0, s0, h0, RebalanceUp(path0, s0))
      modifies this`root, this`shape, PathRefs(path0), Refs(s0)
      ensures Linked(root, RebalanceUp(path0, s0), null)
    {
      var cur := Some(start);
      ghost var path: Path, s: Shape, h: nat := path0, s0, h0;
      ghost var nodes := PathRefs(path0) + Refs(s0);
      while cur.Some? && Deref(cur.value) != null
        invariant PathRefs(path) + Refs(s) == nodes
        invariant Rebalancing(cur, path, s, h, RebalanceUp(path0, s0))
        decreases cur.Some?, path
      {
        cur, path, s, h := Turn(cur.value, path, s, h, RebalanceUp(path0, s0));
      }
    }

    /** Rebalances the whole tree and adopts the result as the shape of the tree. */
    method Settle(start: Slot, ghost path: Path, ghost s: Shape, ghost h: nat)
      requires Rebalancing(Some(start), path, s, h, RebalanceUp(path, s))
      modifies this`root, this`shape, PathRefs(path), Refs(s)
      ensures Valid() && Refs(shape) == PathRefs(path) + Refs(s)
    {
      RebalanceUpCorrect(path, s, h, 0, MAX_ID + 1);
      RefsOfPlug(path, s);
      RebalanceFrom(start, path, s, h);
      shape := RebalanceUp(path, s);
    }

    /** Rebalances from the fork above the hole of `path`, in which `t` took the place of a sub-tree of height `h`. */
    method SettleAbove(start: Slot, ghost path: Path, ghost t: Shape, ghost n: TreeNode?, ghost h: nat)
      requires path.Step? && start == SlotOf(path.up) && PathBalanced(path, h) && Balanced(t)
               && -1 <= Height(t) - h <= 1
      requires Within(Plug(path, t), 0, MAX_ID + 1)
      requires Linked(n, t, path.node) && Seg(path, root, null, n, path.node)
      modifies this`root, this`shape, PathRefs(path), Refs(t)
      ensures Valid() && Refs(shape) == PathRefs(path) + Refs(t)
    {
      Ready(path, t, n, h);
      Settle(start, path.up, Join(path.side, t, path.node, path.sibling), 1 + Max(h, Height(path.sibling)));
    }

    /** Where a new node goes in a tree that is not empty. */
    lemma {:induction false} EmptyPlace(path: Path, id: int)
      requires Valid() && root != null && Located(path, Leaf, id)
      ensures path.Step? && Deref(SlotOf(path.up)) == path.node
      ensures path.side == (if id < path.node.id then L else R)
      ensures PathWithin(path, 0, MAX_ID + 1) && PathRefs(path) == Refs(shape)
    {
      WithinPlug(path, Leaf, 0, MAX_ID + 1);
      RefsOfPlug(path, Leaf);
      assert path.Step?;
      assert Seg(path.up, root, null, path.node, path.node.parent);
    }

    /** The tail of add_node: links `n` below the node found and rebalances from there. */
    method Hang(n: TreeNode, side: Side, ghost path: Path)
      requires Valid() && path.Step? && path.side == side && PathRefs(path) == Refs(shape)
      requires PathWithin(path, 0, MAX_ID + 1)
      requires Located(path, Leaf, n.id) && Linked(n, Fork(Leaf, n, Leaf), path.node) && n !in Refs(shape)
      requires n.id !in Contents()
      modifies this`root, this`shape, Refs(shape)
      modifies n
      ensures Valid() && Refs(shape) == old(Refs(shape)) + {n}
      ensures Contents() == old(Contents())[n.id := n.bundle]
    {
      ghost var was := shape;
      assert allocated(PathRefs(path));
      ghost var leaf := Fork(Leaf, n, Leaf);
      RefsOfLeaf(n);
      BalancedPlug(path, Leaf);
      WithinPlug(path, leaf, 0, MAX_ID + 1);
      SetHole(ChildSlot(n.parent, side), n, path, null);
      var parentSlot := ParentSlot(n, path, n);
      SettleAbove(parentSlot.value, path, leaf, n, 0);
      ContentsAdded(was, shape, n);
    }

    /** add_node */
    method AddNode(id: int, bundle: Bundle)
      requires Valid() && 0 < id <= MAX_ID && id !in Contents()
      modifies this`root, this`shape, Refs(shape)
      ensures Valid() && fresh(Refs(shape) - old(Refs(shape)))
      ensures Contents() == old(Contents())[id := bundle]
    {
      if root == null {
        root := new TreeNode(id, bundle, null);
        shape := Fork(Leaf, root, Leaf);
      } else {
        assert allocated(Refs(shape));
        var slot, path, s := FindSlot(id, true);
        NotInside(path, s, id);
        EmptyPlace(path, id);
        assert allocated(PathRefs(path));
        var prev := Deref(slot.value);
        var n := new TreeNode(id, bundle, prev);
        Hang(n, if id < prev.id then L else R, path);
      }
    }

    /** A place where nothing was found holds no node with that id. */
    lemma NotInside(path: Path, s: Shape, id: int)
      requires Within(shape, 0, MAX_ID + 1) && Located(path, s, id)
      ensures s.Fork? <==> id in Contents()
      ensures s.Fork? ==> Contents()[id] == s.node.bundle
    {
      WithinPlug(path, s, 0, MAX_ID + 1);
      PathRefsOutside(path, 0, MAX_ID + 1);
      RefsOfPlug(path, s);
      IdsDistinct(shape, 0, MAX_ID + 1);
    }

    /** Lines 180-181 and 246-247: a node without sub-trees is cut off. */
    method RemoveLeaf(slot: Slot, del: TreeNode, ghost path: Path)
      requires Valid() && Located(path, Fork(Leaf, del, Leaf), del.id) && slot == SlotOf(path)
      modifies this`root, this`shape, Refs(shape)
      ensures Valid() && Refs(shape) == old(Refs(shape)) - {del}
    {
      LeafRemoval(path, del);
      assert allocated(PathRefs(path));
      SetHole(slot, null, path, del);
      if del.parent != null {
        var parentSlot := ParentSlot(del, path, null);
        SettleAbove(parentSlot.value, path, Leaf, null, 1);
      } else {
        shape := Leaf;
      }
    }

    /** The only child is linked where the deleted node was. */
    method Promote(slot: Slot, replacement: TreeNode, del: TreeNode, ghost path: Path, ghost sub: Shape)
      requires PathWithin(path, 0, MAX_ID + 1) && Within(sub, Lo(path, 0), Hi(path, MAX_ID + 1))
      requires Seg(path, root, null, del, ParentOf(path)) && slot == SlotOf(path) && del.parent == ParentOf(path)
      requires Linked(replacement, sub, del) && del !in PathRefs(path)
      modifies this`root, PathRefs(path), replacement`parent
      ensures Linked(replacement, sub, ParentOf(path)) && Seg(path, root, null, replacement, ParentOf(path))
    {
      HoleApart(path, sub);
      assert allocated(PathRefs(path)) && allocated(Refs(sub));
      assert replacement in Refs(sub);
      SetHole(slot, replacement, path, del);
      Reparent(replacement, del.parent, sub, del, Lo(path, 0), Hi(path, MAX_ID + 1));
    }

    /** Lines 182-185 and 242-245: a node with one sub-tree gives way to it. */
    method RemoveSingle(slot: Slot, del: TreeNode, d: Side, ghost path: Path, ghost sub: Shape)
      requires Valid() && Located(path, Join(d, sub, del, Leaf), del.id) && slot == SlotOf(path) && sub.Fork?
      modifies this`root, this`shape, Refs(shape)
      ensures Valid() && Refs(shape) == old(Refs(shape)) - {del}
    {
      ghost var refs := PathRefs(path) + Refs(sub);
      SingleRemoval(path, d, sub, del);
      assert Refs(shape) - {del} == refs by { WithoutLast(PathRefs(path), Refs(sub), del); }
      PutChild(slot, del, d, path, sub);
      Settle(slot, path, sub, 1 + Height(sub));
    }

    method PutChild(slot: Slot, del: TreeNode, d: Side, ghost path: Path, ghost sub: Shape)
      requires Located(path, Join(d, sub, del, Leaf), del.id) && slot == SlotOf(path) && sub.Fork?
      requires PathWithin(path, 0, MAX_ID + 1) && Within(sub, Lo(path, 0), Hi(path, MAX_ID + 1))
               && Within(Plug(path, sub), 0, MAX_ID + 1)
      requires Fixable(sub, 1 + Height(sub)) && PathBalanced(path, 1 + Height(sub)) && del !in PathRefs(path)
      modifies this`root, PathRefs(path), Refs(sub)
      ensures Rebalancing(Some(slot), path, sub, 1 + Height(sub), RebalanceUp(path, sub))
    {
      var replacement := del.Successor(d);
      assert Linked(replacement, sub, del);
      Promote(slot, replacement, del, path, sub);
    }

    /** Line 211 (and 236): the slot of the old parent of `m`, from which rebalancing starts. */
    method StartSlot(e: Side, m: TreeNode, del: TreeNode, ghost q: Path, ghost ml: Shape, ghost sub: TreeNode?,
        ghost far: Shape, ghost path: Path)
      returns (from: Slot)
      requires TakenOver(e, m, q, ml, sub, far) && m.parent == (if q.Top? then del else q.node)
      requires Seg(path, root, null, del, ParentOf(path)) && del.parent == ParentOf(path)
      requires path.Step? ==> del !in Refs(path.sibling)
      requires q.Step? ==> q.node !in Refs(far) && q.node !in PathRefs(q.up)
      ensures from == SlotOf(Spliced(e, q, m, far, path).up)
    {
      ghost var d: Side := e;
      ghost var base := Step(e, m, far, path);
      assert Spliced(e, q, m, far, path).up == if q.Top? then path else Graft(q.up, base);
      if q.Top? {
        if path.Step? { HoleSlot(path, root, null, del); d := path.side; }
      } else {
        assert Seg(q.up, m.Successor(e), m, q.node, q.node.parent);
        if q.up.Step? {
          HoleSlot(q.up, m.Successor(e), m, q.node);
          d := q.up.side;
        }
      }
      from := SlotTo(m.parent, d);
    }

    /** A replacement that has taken over both sub-trees and stands in the hole continues the path through itself. */
    lemma {:induction false} InPlace(e: Side, m: TreeNode, q: Path, ml: Shape, sub: TreeNode?, far: Shape, path: Path)
      requires TakenOver(e, m, q, ml, sub, far)
      requires Seg(path, root, null, m, ParentOf(path)) && m.parent == ParentOf(path)
      ensures var g := Spliced(e, q, m, far, path);
              g.Step? && Linked(sub, ml, g.node) && Seg(g, root, null, sub, g.node)
    {
      assert Seg(Step(e, m, far, path), root, null, m.Successor(e), m);
      SegGraft(q, Step(e, m, far, path), root, m.Successor(e), m, sub, if q.Top? then m else q.node);
    }

    /** The replacement is linked to the parent of the deleted node, and back. */
    method Install(slot: Slot, m: TreeNode, del: TreeNode, ghost path: Path)
      requires slot == SlotOf(path) && PathWithin(path, 0, MAX_ID + 1)
      requires Seg(path, root, null, del, ParentOf(path)) && del.parent == ParentOf(path) && del != m
               && del !in PathRefs(path)
      requires m !in PathRefs(path)
      modifies this`root, (if path.Step? then {path.node} else {})`successor0,
          (if path.Step? then {path.node} else {})`successor1, m`parent
      ensures Seg(path, root, null, m, ParentOf(path)) && m.parent == ParentOf(path)
    {
      assert allocated(PathRefs(path));
      SetHole(slot, m, path, del);
      m.parent := del.parent;
    }

    /** A replacement that has taken over both sub-trees is linked where the deleted node was. */
    method PutInPlace(slot: Slot, e: Side, m: TreeNode, del: TreeNode, ghost q: Path, ghost ml: Shape,
        ghost sub: TreeNode?, ghost far: Shape, ghost path: Path)
      requires TakenOver(e, m, q, ml, sub, far)
      requires slot == SlotOf(path) && PathWithin(path, 0, MAX_ID + 1)
      requires Seg(path, root, null, del, ParentOf(path)) && del.parent == ParentOf(path) && del != m
               && del !in PathRefs(path)
      requires m !in PathRefs(path) && m !in PathRefs(q) && m !in Refs(ml) && m !in Refs(far)
      requires path.Step? ==> path.node !in PathRefs(q) && path.node !in Refs(ml) && path.node !in Refs(far)
      modifies this`root, PathRefs(path), m`parent
      ensures TakenOver(e, m, q, ml, sub, far)
      ensures Seg(path, root, null, m, ParentOf(path)) && m.parent == ParentOf(path)
    {
      assert allocated(PathRefs(q)) && allocated(Refs(ml)) && allocated(Refs(far));
      ghost var near, other, p := m.Successor(e), m.Successor(e.Other()), if q.Top? then m else q.node;
      ghost var a, b, c := Linked(other, far, m), Linked(sub, ml, p), Seg(q, near, m, sub, p);
      Install(slot, m, del, path);
      assert a == Linked(other, far, m) && b == Linked(sub, ml, p) && c == Seg(q, near, m, sub, p);
    }

    /** Lines 242-245 for a replacement that has taken over both sub-trees. */
    method Replant(slot: Slot, from: Slot, e: Side, m: TreeNode, del: TreeNode, ghost q: Path, ghost ml: Shape,
        ghost sub: TreeNode?, ghost far: Shape, ghost path: Path)
      requires Within(shape, 0, MAX_ID + 1) && Balanced(shape)
      requires shape == Plug(path, Join(e, Plug(q, Join(e, ml, m, Leaf)), del, far)) && Spine(q, e.Other())
      requires TakenOver(e, m, q, ml, sub, far) && from == SlotOf(Spliced(e, q, m, far, path).up)
      requires Seg(path, root, null, del, ParentOf(path)) && del.parent == ParentOf(path) && slot == SlotOf(path)
      modifies this`root, this`shape, Refs(shape)
      ensures Valid() && Refs(shape) == old(Refs(shape)) - {del}
    {
      InnerRemoval(path, e, Plug(q, Join(e, ml, m, Leaf)), del, far);
      SpineApart(e, q, ml, m, del, far, Lo(path, 0), Hi(path, MAX_ID + 1));
      SpliceCorrect(e, q, ml, m, del, far, path, 0, MAX_ID + 1);
      PutInPlace(slot, e, m, del, q, ml, sub, far, path);
      InPlace(e, m, q, ml, sub, far, path);
      SettleAbove(from, Spliced(e, q, m, far, path), ml, sub, 1 + Height(ml));
    }

    /** Lines 186-240: a node with two sub-trees gives way to its neighbour on the higher side. */
    method RemoveInner(slot: Slot, del: TreeNode, e: Side, ghost path: Path, ghost near: Shape, ghost far: Shape)
      requires Valid() && Located(path, Join(e, near, del, far), del.id) && slot == SlotOf(path) && near.Fork?
      modifies this`root, this`shape, Refs(shape)
      ensures Valid() && Refs(shape) == old(Refs(shape)) - {del}
    {
      InnerRemoval(path, e, near, del, far);
      assert allocated(PathRefs(path));
      var m, q, ml, sub := TakeOver(e, del, near, far, Lo(path, 0), Hi(path, MAX_ID + 1));
      SpineApart(e, q, ml, m, del, far, Lo(path, 0), Hi(path, MAX_ID + 1));
      assert allocated(PathRefs(q)) && allocated(Refs(ml)) && allocated(Refs(far));
      var from := StartSlot(e, m, del, q, ml, sub, far, path);
      Replant(slot, from, e, m, del, q, ml, sub, far, path);
    }

    /** delete_node_at_ptr */
    method DeleteAt(slot: Slot, ghost path: Path, ghost s: Shape)
      requires Valid() && s.Fork? && Located(path, s, s.node.id) && slot == SlotOf(path)
      modifies this`root, this`shape, Refs(shape)
      ensures Valid() && Refs(shape) == old(Refs(shape)) - {s.node}
      ensures Contents() == old(Contents()) - {s.node.id}
    {
      ghost var was := shape;
      RefsOfPlug(path, s);
      var del := Deref(slot);
      BalanceOfLinked(del.successor0, s.left, del);
      BalanceOfLinked(del.successor1, s.right, del);
      if del.successor0 == null && del.successor1 == null {
        RemoveLeaf(slot, del, path);
      } else if del.successor1 == null {
        RemoveSingle(slot, del, L, path, s.left);
      } else if del.successor0 == null {
        RemoveSingle(slot, del, R, path, s.right);
      } else if HeightOf(del.successor0) >= HeightOf(del.successor1) {
        RemoveInner(slot, del, L, path, s.left, s.right);
      } else {
        RemoveInner(slot, del, R, path, s.right, s.left);
      }
      ContentsRemoved(was, shape, s.node);
    }

    constructor ()
      ensures Valid() && Contents() == map[] && shape == Leaf
    {
      root, shape := null, Leaf;
    }

    /** find_nodeptr and the bundle of the node found. */
    method Lookup(id: int) returns (bundle: Option<Bundle>)
      requires Valid() && 0 < id <= MAX_ID
      ensures bundle == if id in Contents() then Some(Contents()[id]) else None
    {
      var slot, path, s := FindSlot(id, false);
      NotInside(path, s, id);
      if slot.None? { return None; }
      return Some(Deref(slot.value).bundle);
    }

    /** find_nodeptr and delete_node_at_ptr. */
    method Remove(id: int)
      requires Valid() && 0 < id <= MAX_ID && id in Contents()
      modifies this, Refs(shape)
      ensures Valid() && Refs(shape) <= old(Refs(shape))
      ensures Contents() == old(Contents()) - {id}
    {
      assert allocated(Refs(shape));
      var slot, path, s := FindSlot(id, false);
      NotInside(path, s, id);
      assert Valid() == old(Valid());
      DeleteAt(slot.value, path, s);
    }
  }

  lemma {:induction false} InnerRemoval(path: Path, e: Side, near: Shape, del: TreeNode, far: Shape)
    requires Within(Plug(path, Join(e, near, del, far)), 0, MAX_ID + 1)
    ensures PathWithin(path, 0, MAX_ID + 1) && Within(Join(e, near, del, far), Lo(path, 0), Hi(path, MAX_ID + 1))
    ensures del !in PathRefs(path) && PathRefs(path) !! Refs(near) && PathRefs(path) !! Refs(far)
    ensures Refs(Plug(path, Join(e, near, del, far))) == PathRefs(path) + Refs(near) + Refs(far) + {del}
  {
    var s := Join(e, near, del, far);
    RefsOfPlug(path, s);
    WithinPlug(path, s, 0, MAX_ID + 1);
    HoleApart(path, s);
  }

  lemma {:induction false} LeafRemoval(path: Path, del: TreeNode)
    requires Within(Plug(path, Fork(Leaf, del, Leaf)), 0, MAX_ID + 1) && Balanced(Plug(path, Fork(Leaf, del, Leaf)))
    ensures PathWithin(path, 0, MAX_ID + 1) && PathBalanced(path, 1) && Within(Plug(path, Leaf), 0, MAX_ID + 1)
    ensures del !in PathRefs(path) && Refs(Plug(path, Fork(Leaf, del, Leaf))) == PathRefs(path) + {del}
  {
    var leaf := Fork(Leaf, del, Leaf);
    RefsOfPlug(path, leaf);
    WithinPlug(path, leaf, 0, MAX_ID + 1);
    WithinPlug(path, Leaf, 0, MAX_ID + 1);
    BalancedPlug(path, leaf);
    HoleApart(path, leaf);
  }

  lemma {:induction false} RefsAbove(path: Path, t: Shape)
    requires path.Step?
    ensures PathRefs(path.up) + Refs(Join(path.side, t, path.node, path.sibling)) == PathRefs(path) + Refs(t)
  {
  }

  lemma RefsOfLeaf(n: TreeNode)
    ensures Refs(Fork(Leaf, n, Leaf)) == {n}
  {
  }

  lemma WithoutLast(a: set<TreeNode>, b: set<TreeNode>, x: TreeNode)
    requires x !in a && x !in b
    ensures a + b + {x} - {x} == a + b
  {
  }

  lemma {:induction false} SingleRemoval(path: Path, d: Side, sub: Shape, del: TreeNode)
    requires sub.Fork?
    requires var whole := Plug(path, Join(d, sub, del, Leaf)); Within(whole, 0, MAX_ID + 1) && Balanced(whole)
    ensures PathWithin(path, 0, MAX_ID + 1) && Within(sub, Lo(path, 0), Hi(path, MAX_ID + 1))
    ensures Within(Plug(path, sub), 0, MAX_ID + 1)
    ensures Fixable(sub, 1 + Height(sub)) && PathBalanced(path, 1 + Height(sub))
    ensures del !in PathRefs(path) && del !in Refs(sub) && PathRefs(path) !! Refs(sub)
    ensures Refs(Plug(path, Join(d, sub, del, Leaf))) == PathRefs(path) + Refs(sub) + {del}
  {
    var s := Join(d, sub, del, Leaf);
    SingleOrder(path, d, sub, del);
    RefsOfPlug(path, s);
    BalancedJoin(d, sub, del, Leaf);
    BalancedPlug(path, s);
    FixBalances(sub);
  }

  lemma {:induction false} SingleOrder(path: Path, d: Side, sub: Shape, del: TreeNode)
    requires Within(Plug(path, Join(d, sub, del, Leaf)), 0, MAX_ID + 1)
    ensures PathWithin(path, 0, MAX_ID + 1) && Within(sub, Lo(path, 0), Hi(path, MAX_ID + 1))
    ensures Within(Plug(path, sub), 0, MAX_ID + 1)
    ensures del !in PathRefs(path) && del !in Refs(sub) && PathRefs(path) !! Refs(sub)
  {
    var s := Join(d, sub, del, Leaf);
    var lo, hi := Lo(path, 0), Hi(path, MAX_ID + 1);
    WithinPlug(path, s, 0, MAX_ID + 1);
    WithinWider(sub, if d.L? then lo else del.id, if d.L? then del.id else hi, lo, hi);
    WithinPlug(path, sub, 0, MAX_ID + 1);
    HoleApart(path, s);
    Apart(s, lo, hi);
  }

  lemma {:induction false} ContentsAdded(s: Shape, t: Shape, n: TreeNode)
    requires Within(s, 0, MAX_ID + 1) && Within(t, 0, MAX_ID + 1)
    requires Refs(t) == Refs(s) + {n} && n.id !in ContentsOf(s)
    ensures ContentsOf(t) == ContentsOf(s)[n.id := n.bundle]
  {
    IdsDistinct(t, 0, MAX_ID + 1);
  }

  lemma {:induction false} ContentsRemoved(s: Shape, t: Shape, n: TreeNode)
    requires Within(s, 0, MAX_ID + 1) && Within(t, 0, MAX_ID + 1)
    requires n in Refs(s) && Refs(t) == Refs(s) - {n}
    ensures ContentsOf(t) == ContentsOf(s) - {n.id}
  {
    IdsDistinct(s, 0, MAX_ID + 1);
  }

  /** What fixing the sub-tree in the hole keeps. */
  lemma {:induction false} Climb(path: Path, s: Shape)
    requires s.Fork? && Balanced(s.left) && Balanced(s.right) && -2 <= Balance(s) <= 2
    requires Within(Plug(path, s), 0, MAX_ID + 1)
    ensures PathWithin(path, 0, MAX_ID + 1) && Within(Plug(path, Fix(s)), 0, MAX_ID + 1)
    ensures Refs(Fix(s)) == Refs(s)
  {
    FixInPlace(path, s, 0, MAX_ID + 1);
    WithinPlug(path, s, 0, MAX_ID + 1);
    FixKeeps(s, Lo(path, 0), Hi(path, MAX_ID + 1));
  }

  lemma {:induction false} StepApart(path: Path)
    requires path.Step? && PathWithin(path, 0, MAX_ID + 1)
    ensures path.node !in Refs(path.sibling) && path.node !in PathRefs(path.up)
  {
    PathRefsOutside(path.up, 0, MAX_ID + 1);
    if path.side.L? {
      RefsWithin(path.sibling, path.node.id, Hi(path.up, MAX_ID + 1));
    } else {
      RefsWithin(path.sibling, Lo(path.up, 0), path.node.id);
    }
  }

  lemma {:induction false} HoleApart(path: Path, s: Shape)
    requires PathWithin(path, 0, MAX_ID + 1) && Within(s, Lo(path, 0), Hi(path, MAX_ID + 1))
    ensures PathRefs(path) !! Refs(s)
  {
    PathRefsOutside(path, 0, MAX_ID + 1);
    RefsWithin(s, Lo(path, 0), Hi(path, MAX_ID + 1));
  }
}
