/**
 The segment index: a red-black tree with parent links, changed in place (capn_tree_insert), to which
 segments are only ever appended (capn_append_segment), and the search in it (lookup_segment).
 */
module SegmentTree {
  import opened Powers

  /** struct capn_segment, as far as the index goes. */
  class SegmentId {
    var id: nat

    constructor ()
      ensures id == 0
    {
      id := 0;
    }
  }

  /** struct capn_tree: the header of a segment; `seg` is what the source gets by a cast. */
  class Node {
    const seg: SegmentId
    var parent: Node?
    var left: Node?
    var right: Node?
    var red: bool

    constructor (seg: SegmentId)
      ensures this.seg == seg && parent == null && left == null && right == null && !red
    {
      this.seg := seg;
      parent, left, right, red := null, null, null, false;
    }

    /** link[d], where true stands for 1, the right link. */
    function Link(d: bool): Node?
      reads this
    {
      if d then right else left
    }
  }

  // ---- trees --------------------------------------------------------------------------------

  datatype Tree = Leaf | Bin(left: Tree, node: Node, red: bool, right: Tree)

  /** A tree with `near` on side d of its root and `far` on the other. */
  function Fork(d: bool, near: Tree, node: Node, red: bool, far: Tree): Tree {
    if d then Bin(far, node, red, near) else Bin(near, node, red, far)
  }

  function RootOf(t: Tree): Node? { if t.Bin? then t.node else null }

  predicate RedRoot(t: Tree) { t.Bin? && t.red }

  ghost function Nodes(t: Tree): set<Node> { if t.Bin? then Nodes(t.left) + {t.node} + Nodes(t.right) else {} }

  function InOrder(t: Tree): seq<Node> { if t.Bin? then InOrder(t.left) + [t.node] + InOrder(t.right) else [] }

  /** No node occurs twice. */
  ghost predicate Distinct(t: Tree) {
    t.Bin? ==>
      && t.node !in Nodes(t.left) && t.node !in Nodes(t.right) && Nodes(t.left) !! Nodes(t.right)
      && Distinct(t.left) && Distinct(t.right)
  }

  /** The nodes in memory are linked up as the tree, below `parent`. */
  ghost predicate Rep(t: Tree, parent: Node?)
    reads Nodes(t)
  {
    t.Bin? ==>
      && t.node.parent == parent && t.node.red == t.red
      && t.node.left == RootOf(t.left) && t.node.right == RootOf(t.right)
      && Rep(t.left, t.node) && Rep(t.right, t.node)
  }

  /** The black nodes on the way down the left side. */
  function BlackHeight(t: Tree): nat {
    if t.Bin? then BlackHeight(t.left) + (if t.red then 0 else 1) else 0
  }

  /** No red node has a red child, and all ways down have the same number of black nodes. */
  predicate Balanced(t: Tree) {
    t.Bin? ==>
      && Balanced(t.left) && Balanced(t.right) && BlackHeight(t.left) == BlackHeight(t.right)
      && (t.red ==> !RedRoot(t.left) && !RedRoot(t.right))
  }

  function Height(t: Tree): nat {
    if t.Bin? then 1 + (if Height(t.left) < Height(t.right) then Height(t.right) else Height(t.left)) else 0
  }

  lemma {:induction false} HeightBound(t: Tree)
    requires Balanced(t)
    ensures Height(t) <= 2 * BlackHeight(t) + (if RedRoot(t) then 1 else 0)
    ensures Pow2(BlackHeight(t)) <= |InOrder(t)| + 1
  {
    if t.Bin? {
      HeightBound(t.left);
      HeightBound(t.right);
    }
  }

  // ---- what is around a subtree -------------------------------------------------------------

  /** The way up from a subtree: the parent, on whose side d the subtree hangs, its other subtree, and so on. */
  datatype Above = Top | Under(up: Above, node: Node, red: bool, d: bool, other: Tree)

  function Parent(c: Above): Node? { if c.Under? then c.node else null }

  predicate RedParent(c: Above) { c.Under? && c.red }

  ghost function NodesAbove(c: Above): set<Node> {
    if c.Under? then NodesAbove(c.up) + {c.node} + Nodes(c.other) else {}
  }

  ghost predicate DistinctAbove(c: Above) {
    c.Under? ==>
      && c.node !in Nodes(c.other) && c.node !in NodesAbove(c.up) && Nodes(c.other) !! NodesAbove(c.up)
      && Distinct(c.other) && DistinctAbove(c.up)
  }

  /** The nodes in memory are linked up around a subtree with this root. */
  ghost predicate RepAbove(c: Above, child: Node?)
    reads NodesAbove(c)
  {
    c.Under? ==>
      && c.node.parent == Parent(c.up) && c.node.red == c.red
      && c.node.Link(c.d) == child && c.node.Link(!c.d) == RootOf(c.other)
      && Rep(c.other, c.node) && RepAbove(c.up, c.node)
  }

  /** Around a subtree of black height h everything is balanced. */
  predicate BalancedAbove(c: Above, h: nat) {
    c.Under? ==>
      && Balanced(c.other) && BlackHeight(c.other) == h && (c.red ==> !RedRoot(c.other) && c.up.Under? && !c.up.red)
      && BalancedAbove(c.up, h + if c.red then 0 else 1)
  }

  function Plug(c: Above, t: Tree): Tree {
    if c.Under? then Plug(c.up, Fork(c.d, t, c.node, c.red, c.other)) else t
  }

  /** The nodes before and behind the subtree. */
  function Before(c: Above): seq<Node> {
    if c.Under? then Before(c.up) + (if c.d then InOrder(c.other) + [c.node] else []) else []
  }

  function Behind(c: Above): seq<Node> {
    if c.Under? then (if c.d then [] else [c.node] + InOrder(c.other)) + Behind(c.up) else []
  }

  /** The order of all nodes, with a subtree in its place. */
  function Around(c: Above, t: Tree): seq<Node> { Before(c) + InOrder(t) + Behind(c) }

  /** A subtree and its place belong together. */
  ghost predicate Placed(c: Above, t: Tree)
    reads Nodes(t), NodesAbove(c)
  {
    Rep(t, Parent(c)) && RepAbove(c, RootOf(t)) && Distinct(t) && DistinctAbove(c) && Nodes(t) !! NodesAbove(c)
  }

  /** The same, one step further up. */
  lemma Climb(c: Above, t: Tree)
    requires c.Under?
    ensures Around(c.up, Fork(c.d, t, c.node, c.red, c.other)) == Around(c, t)
  {
    var a, b, x, y := Before(c.up), Behind(c.up), InOrder(t), InOrder(c.other);
    if c.d {
      assert a + (y + [c.node] + x) + b == (a + (y + [c.node])) + x + ([] + b);
    } else {
      assert a + (x + [c.node] + y) + b == (a + []) + x + ([c.node] + y + b);
    }
  }

  lemma ClimbPlaced(c: Above, t: Tree)
    requires c.Under? && Placed(c, t)
    ensures Placed(c.up, Fork(c.d, t, c.node, c.red, c.other))
  {
  }

  lemma {:induction false} PlugPlaced(c: Above, t: Tree)
    requires Placed(c, t)
    ensures Placed(Top, Plug(c, t))
    decreases c
  {
    if c.Under? {
      ClimbPlaced(c, t);
      PlugPlaced(c.up, Fork(c.d, t, c.node, c.red, c.other));
    }
  }

  lemma {:induction false} PlugOrder(c: Above, t: Tree)
    ensures InOrder(Plug(c, t)) == Around(c, t)
    decreases c
  {
    if c.Under? {
      PlugOrder(c.up, Fork(c.d, t, c.node, c.red, c.other));
      Climb(c, t);
    } else {
      assert [] + InOrder(t) + [] == InOrder(t);
    }
  }

  lemma {:induction false} PlugBalanced(c: Above, t: Tree)
    requires Balanced(t) && BalancedAbove(c, BlackHeight(t)) && !(RedRoot(t) && (c == Top || RedParent(c)))
    ensures Balanced(Plug(c, t)) && !RedRoot(Plug(c, t))
    decreases c
  {
    if c.Under? {
      PlugBalanced(c.up, Fork(c.d, t, c.node, c.red, c.other));
    }
  }

  // ---- changing links -----------------------------------------------------------------------

  /** Stores x in the link that held g (gglink in capn_tree_insert): the root, or the parent's link to g. */
  method Hang(root: Node, g: Node, x: Node, ghost up: Above) returns (root': Node)
    requires RepAbove(up, g) && g.parent == Parent(up) && DistinctAbove(up) && g !in NodesAbove(up)
    modifies NodesAbove(up)
    ensures RepAbove(up, x) && root' == if up == Top then x else root
  {
    root' := root;
    if g.parent == null {
      root' := x;
    } else {
      var gg := g.parent;
      assert Rep(up.other, gg) && RepAbove(up.up, gg) && gg !in Nodes(up.other) && gg !in NodesAbove(up.up);
      if gg.right == g { gg.right := x; } else { gg.left := x; }
    }
  }

  /** Gives a subtree another parent. */
  method Reparent(n: Node?, parent: Node?, ghost t: Tree, ghost was: Node?)
    requires n == RootOf(t) && Rep(t, was) && Distinct(t)
    modifies Nodes(t)
    ensures Rep(t, parent)
  {
    if n != null {
      assert Rep(t.left, n) && Rep(t.right, n) && n !in Nodes(t.left) && n !in Nodes(t.right);
      n.parent := parent;
    }
  }

  /** All the nodes there are have been allocated, so that new objects and other calls leave them alone. */
  lemma {:induction false} Live(t: Tree)
    ensures forall n | n in Nodes(t) :: allocated(n)
  {
    if t.Bin? {
      Live(t.left);
      Live(t.right);
    }
  }

  lemma {:induction false} LiveAbove(c: Above)
    ensures forall n | n in NodesAbove(c) :: allocated(n)
  {
    if c.Under? {
      Live(c.other);
      LiveAbove(c.up);
    }
  }

  /** A subtree and its place, taken apart by one level. */
  lemma OneUp(c: Above, s: Tree)
    requires c.Under? && Placed(c, s)
    ensures c.node.parent == Parent(c.up) && c.node.red == c.red && c.node.Link(c.d) == RootOf(s)
      && c.node.Link(!c.d) == RootOf(c.other)
    ensures Rep(s, c.node) && Rep(c.other, c.node) && RepAbove(c.up, c.node)
    ensures Distinct(s) && Distinct(c.other) && DistinctAbove(c.up) && Nodes(s) !! Nodes(c.other)
    ensures NodesAbove(c) == NodesAbove(c.up) + {c.node} + Nodes(c.other)
    ensures NodesAbove(c.up) !! Nodes(s) + Nodes(c.other) && c.node !in NodesAbove(c.up) + Nodes(s) + Nodes(c.other)
    ensures Placed(c.up, Fork(c.d, s, c.node, c.red, c.other))
    ensures Nodes(Fork(c.d, s, c.node, c.red, c.other)) == Nodes(s) + {c.node} + Nodes(c.other)
  {
    ClimbPlaced(c, s);
  }

  /** One level's links, with the level spelled out. */
  lemma OneUpLinks(up: Above, node: Node, red: bool, d: bool, other: Tree, s: Tree)
    requires Placed(Under(up, node, red, d, other), s)
    ensures node.parent == Parent(up) && node.red == red && node.Link(d) == RootOf(s) && node.Link(!d) == RootOf(other)
    ensures Rep(s, node) && Rep(other, node) && RepAbove(up, node) && Distinct(s) && Distinct(other)
      && DistinctAbove(up)
    ensures Placed(up, Fork(d, s, node, red, other))
  {
    hide Placed, Rep, RepAbove, Distinct, DistinctAbove, Nodes, NodesAbove, Node.Link, Parent, RootOf;
    OneUp(Under(up, node, red, d, other), s);
  }

  /** The two levels that a rotation takes apart: their links. */
  lemma TwoUpLinks(up: Above, g: Node, gd: bool, u: Tree, p: Node, pd: bool, other: Tree, s: Tree)
    requires Placed(Under(Under(up, g, false, gd, u), p, true, pd, other), s)
    ensures g.parent == Parent(up) && g.Link(gd) == p && g.Link(!gd) == RootOf(u) && Rep(u, g)
    ensures p.red && p.parent == g && p.Link(pd) == RootOf(s) && p.Link(!pd) == RootOf(other) && Rep(other, p)
      && Rep(s, p)
    ensures RepAbove(up, g) && DistinctAbove(up) && Distinct(u) && Distinct(other) && Distinct(s)
  {
    assert RootOf(Fork(pd, s, p, true, other)) == p;
    hide *;
    OneUpLinks(Under(up, g, false, gd, u), p, true, pd, other, s);
    OneUpLinks(up, g, false, gd, u, Fork(pd, s, p, true, other));
  }

  /** And their nodes, which are all different. */
  lemma TwoUpSets(up: Above, g: Node, gd: bool, u: Tree, p: Node, pd: bool, other: Tree, s: Tree)
    requires Placed(Under(Under(up, g, false, gd, u), p, true, pd, other), s)
    ensures Nodes(u) !! Nodes(other) && Nodes(u) !! Nodes(s) && Nodes(other) !! Nodes(s)
    ensures NodesAbove(up) !! Nodes(u) + Nodes(other) + Nodes(s)
    ensures p != g && p !in Nodes(u) + Nodes(other) + Nodes(s) && g !in Nodes(u) + Nodes(other) + Nodes(s)
    ensures p !in NodesAbove(up) && g !in NodesAbove(up)
    ensures NodesAbove(Under(Under(up, g, false, gd, u), p, true, pd,
      other)) == NodesAbove(up) + {g} + Nodes(u) + {p} + Nodes(other)
  {
    hide Placed, Rep, RepAbove, Distinct, DistinctAbove, Nodes, NodesAbove;
    var c, f := Under(up, g, false, gd, u), Fork(pd, s, p, true, other);
    var d := Under(c, p, true, pd, other);
    assert d.up == c && d.node == p && d.d == pd && d.other == other && d.red && d.Under?;
    assert c.up == up && c.node == g && c.d == gd && c.other == u && c.Under?;
    assert RootOf(f) == p;
    OneUp(d, s);
    OneUp(c, f);
    SetsApart(Nodes(s), p, Nodes(other), Nodes(f), g, Nodes(u), NodesAbove(up));
  }

  lemma SetsApart(s: set<Node>, p: Node, o: set<Node>, f: set<Node>, g: Node, u: set<Node>, up: set<Node>)
    requires f == s + {p} + o && f !! u && up !! f + u && g !in up + f + u
    ensures u !! o && u !! s && up !! u + o + s
    ensures p !in u && p !in up && g !in s && g !in o && g !in u && g !in up && p != g
  {
  }

  /** A tree put together from its root and its subtrees. */
  lemma Forked(d: bool, near: Tree, node: Node, red: bool, far: Tree)
    requires node.red == red && node.Link(d) == RootOf(near) && node.Link(!d) == RootOf(far) && Rep(near, node)
      && Rep(far, node)
    requires Distinct(near) && Distinct(far) && Nodes(near) !! Nodes(far) && node !in Nodes(near) + Nodes(far)
    ensures var t := Fork(d, near, node, red, far);
      Rep(t, node.parent) && Distinct(t) && Nodes(t) == Nodes(near) + {node} + Nodes(far)
  {
  }

  /** A node exchanges its subtree on side d for another one, and gets a parent and a colour. */
  method Regraft(node: Node, d: bool, x: Node?, parent: Node, ghost kept: Tree, ghost taken: Tree, ghost from: Node)
      returns (ghost t: Tree)
    requires node.Link(!d) == RootOf(kept) && Rep(kept, node) && x == RootOf(taken) && Rep(taken, from)
    requires Distinct(kept) && Distinct(taken) && Nodes(kept) !! Nodes(taken) && node !in Nodes(kept) + Nodes(taken)
    modifies node, Nodes(taken)
    ensures t == Fork(d, taken, node, true, kept) && Rep(t, parent) && Distinct(t)
      && Nodes(t) == Nodes(taken) + {node} + Nodes(kept)
  {
    t := Fork(d, taken, node, true, kept);
    Live(kept);
    hide Distinct, Nodes, Rep;
    if d { node.right := x; } else { node.left := x; }
    node.parent := parent;
    node.red := true;
    Reparent(x, node, taken, from);
    Forked(d, taken, node, true, kept);
  }

  /** A node becomes the black root of two subtrees that have it for a parent already. */
  method Crown(node: Node, d: bool, a: Node?, b: Node?, parent: Node?, ghost near: Tree,
      ghost far: Tree) returns (ghost t: Tree)
    requires a == RootOf(near) && b == RootOf(far) && Rep(near, node) && Rep(far, node)
    requires Distinct(near) && Distinct(far) && Nodes(near) !! Nodes(far) && node !in Nodes(near) + Nodes(far)
    modifies node
    ensures t == Fork(d, near, node, false, far) && Rep(t, parent) && Distinct(t)
      && Nodes(t) == Nodes(near) + {node} + Nodes(far)
  {
    t := Fork(d, near, node, false, far);
    hide Distinct, Nodes, Rep;
    if d { node.left, node.right := b, a; } else { node.left, node.right := a, b; }
    node.parent := parent;
    node.red := false;
    Forked(d, near, node, false, far);
  }

  /** The links of a single rotation: g goes below p and takes p's far subtree over. */
  method Turn(g: Node, p: Node, dir: bool, ghost u: Tree, ghost three: Tree, ghost s: Tree) returns (ghost t: Tree)
    requires g.Link(dir) == p && g.Link(!dir) == RootOf(u) && p.Link(dir) == RootOf(s) && p.Link(!dir) == RootOf(three)
    requires Rep(s, p) && Rep(three, p) && Rep(u, g) && Distinct(s) && Distinct(three) && Distinct(u)
    requires Nodes(u) !! Nodes(three) && Nodes(u) !! Nodes(s) && Nodes(three) !! Nodes(s)
    requires p != g && p !in Nodes(u) + Nodes(three) + Nodes(s) && g !in Nodes(u) + Nodes(three) + Nodes(s)
    modifies p, g, Nodes(three)
    ensures t == Fork(dir, s, p, false, Fork(!dir, u, g, true, three)) && Rep(t, old(g.parent)) && Distinct(t)
    ensures Nodes(t) == Nodes(s) + {p} + Nodes(u) + {g} + Nodes(three)
  {
    Live(s);
    hide Distinct, Nodes, Rep;
    var top, below := g.parent, p.Link(dir);
    t := Regraft(g, dir, p.Link(!dir), p, u, three, p);
    t := Crown(p, dir, below, g, top, s, t);
  }

  /** Case 5: a rotation of the grandparent g; the parent p takes its place and its colour. */
  method RotateOnce(root: Node, g: Node, p: Node, dir: bool, ghost up: Above, ghost u: Tree, ghost three: Tree,
      ghost s: Tree)
      returns (root': Node, ghost t: Tree)
    requires Placed(Under(Under(up, g, false, dir, u), p, true, dir, three), s)
    modifies NodesAbove(Under(Under(up, g, false, dir, u), p, true, dir, three))
    ensures t == Fork(dir, s, p, false, Fork(!dir, u, g, true, three)) && Placed(up, t)
    ensures root' == if up == Top then p else root
  {
    TwoUpLinks(up, g, dir, u, p, dir, three, s);
    TwoUpSets(up, g, dir, u, p, dir, three, s);
    Live(u);
    Live(three);
    Live(s);
    LiveAbove(up);
    hide *;
    root' := Hang(root, g, p, up);
    t := Turn(g, p, dir, u, three, s);
    PlacedIf(up, t);
  }

  lemma PlacedIf(c: Above, t: Tree)
    requires Rep(t, Parent(c)) && RepAbove(c, RootOf(t)) && Distinct(t) && DistinctAbove(c) && Nodes(t) !! NodesAbove(c)
    ensures Placed(c, t)
  {
  }

  /** The links of a double rotation: n rises above p and g and shares its subtrees out. */
  method TurnTwice(g: Node, p: Node, n: Node, dir: bool, ghost u: Tree, ghost one: Tree, ghost two: Tree,
      ghost three: Tree)
      returns (ghost t: Tree)
    requires g.Link(dir) == p && g.Link(!dir) == RootOf(u) && p.Link(dir) == RootOf(one) && p.Link(!dir) == n && p.red
    requires n.Link(dir) == RootOf(two) && n.Link(!dir) == RootOf(three)
    requires Rep(u, g) && Rep(one, p) && Rep(two, n) && Rep(three, n) && Distinct(u) && Distinct(one)
      && Distinct(two) && Distinct(three)
    requires Nodes(u) !! Nodes(one) && Nodes(u) !! Nodes(two) && Nodes(u) !! Nodes(three)
    requires Nodes(one) !! Nodes(two) && Nodes(one) !! Nodes(three) && Nodes(two) !! Nodes(three)
    requires p != g && p != n && g != n && p !in Nodes(u) + Nodes(one) + Nodes(two) + Nodes(three)
    requires g !in Nodes(u) + Nodes(one) + Nodes(two) + Nodes(three)
      && n !in Nodes(u) + Nodes(one) + Nodes(two) + Nodes(three)
    modifies p, g, n, Nodes(two), Nodes(three)
    ensures t == Fork(dir, Fork(dir, one, p, true, two), n, false, Fork(dir, three, g, true, u))
    ensures Rep(t, old(g.parent)) && Distinct(t)
    ensures Nodes(t) == Nodes(one) + {p} + Nodes(two) + {n} + Nodes(three) + {g} + Nodes(u)
  {
    Live(u);
    Live(one);
    Live(three);
    hide Distinct, Nodes, Rep;
    var top, second, third := g.parent, n.Link(dir), n.Link(!dir);
    ghost var a := Regraft(p, !dir, second, n, one, two, n);
    Live(a);
    ghost var b := Regraft(g, dir, third, n, u, three, n);
    t := Crown(n, dir, p, g, top, a, b);
  }

  /** Case 4: rotations of p and then of the grandparent g; n takes the place and the colour of g. */
  method RotateTwice(root: Node, g: Node, p: Node, n: Node, dir: bool, ghost up: Above, ghost u: Tree,
      ghost one: Tree, ghost two: Tree, ghost three: Tree)
      returns (root': Node, ghost t: Tree)
    requires Placed(Under(Under(up, g, false, dir, u), p, true, !dir, one), Fork(dir, two, n, true, three))
    modifies NodesAbove(Under(Under(up, g, false, dir, u), p, true, !dir, one)), Nodes(Fork(dir, two, n, true, three))
    ensures t == Fork(dir, Fork(dir, one, p, true, two), n, false, Fork(dir, three, g, true, u)) && Placed(up, t)
    ensures root' == if up == Top then n else root
  {
    hide Placed, Rep, RepAbove, Distinct, DistinctAbove, Nodes, NodesAbove;
    TwoUpLinks(up, g, dir, u, p, !dir, one, Fork(dir, two, n, true, three));
    TwoUpSets(up, g, dir, u, p, !dir, one, Fork(dir, two, n, true, three));
    OneDown(dir, two, n, true, three, p);
    Live(u);
    Live(one);
    Live(two);
    Live(three);
    LiveAbove(up);
    root' := Hang(root, g, n, up);
    t := TurnTwice(g, p, n, dir, u, one, two, three);
    PlacedIf(up, t);
  }

  lemma OneDown(d: bool, near: Tree, node: Node, red: bool, far: Tree, parent: Node?)
    requires Rep(Fork(d, near, node, red, far), parent) && Distinct(Fork(d, near, node, red, far))
    ensures node.parent == parent && node.red == red && node.Link(d) == RootOf(near) && node.Link(!d) == RootOf(far)
    ensures Rep(near, node) && Rep(far, node) && Distinct(near) && Distinct(far) && Nodes(near) !! Nodes(far)
    ensures node !in Nodes(near) + Nodes(far) && Nodes(Fork(d, near, node, red,
      far)) == Nodes(near) + {node} + Nodes(far)
  {
  }

  // ---- capn_tree_insert ---------------------------------------------------------------------

  /** A place whose surroundings are balanced for a subtree with a red root, which may clash with its parent. */
  ghost predicate Waiting(c: Above, s: Tree) { Balanced(s) && RedRoot(s) && BalancedAbove(c, BlackHeight(s)) }

  /** The node at the top of the tree. */
  function TopNode(c: Above, n: Node): Node { if c.Under? then TopNode(c.up, c.node) else n }

  lemma UnderBalanced(up: Above, node: Node, red: bool, d: bool, other: Tree, h: nat)
    requires BalancedAbove(Under(up, node, red, d, other), h)
    ensures Balanced(other) && BlackHeight(other) == h && BalancedAbove(up, h + if red then 0 else 1)
    ensures red ==> !RedRoot(other) && up.Under? && !up.red
  {
  }

  lemma ForkBalanced(d: bool, near: Tree, node: Node, red: bool, far: Tree)
    requires Balanced(near) && Balanced(far) && BlackHeight(near) == BlackHeight(far)
    requires red ==> !RedRoot(near) && !RedRoot(far)
    ensures var t := Fork(d, near, node, red, far);
      && Balanced(t)
      && BlackHeight(t) == BlackHeight(near) + if red then 0 else 1
  {
  }

  /** Case 3: the red moves from the parent and the uncle to the grandparent. */
  lemma RecolourBalanced(up: Above, g: Node, gd: bool, u: Tree, p: Node, d: bool, three: Tree, s: Tree)
    requires Waiting(Under(Under(up, g, false, gd, u), p, true, d, three), s) && RedRoot(u)
    ensures var t := Fork(gd, Fork(d, s, p, false, three), g, true, Bin(u.left, u.node, false, u.right)); Waiting(up, t)
  {
    var h, blackened := BlackHeight(s), Bin(u.left, u.node, false, u.right);
    UnderBalanced(Under(up, g, false, gd, u), p, true, d, three, h);
    UnderBalanced(up, g, false, gd, u, h);
    ForkBalanced(false, u.left, u.node, false, u.right);
    ForkBalanced(d, s, p, false, three);
    ForkBalanced(gd, Fork(d, s, p, false, three), g, true, blackened);
  }

  /** Case 5 leaves a balanced subtree with a black root, as high as before. */
  lemma OnceBalanced(up: Above, g: Node, dir: bool, u: Tree, p: Node, three: Tree, s: Tree)
    requires Waiting(Under(Under(up, g, false, dir, u), p, true, dir, three), s) && !RedRoot(u)
    ensures var t := Fork(dir, s, p, false, Fork(!dir, u, g, true, three));
      && Balanced(t) && !RedRoot(t)
      && BalancedAbove(up, BlackHeight(t))
  {
    UnderBalanced(Under(up, g, false, dir, u), p, true, dir, three, BlackHeight(s));
    UnderBalanced(up, g, false, dir, u, BlackHeight(s));
    ForkBalanced(!dir, u, g, true, three);
    ForkBalanced(dir, s, p, false, Fork(!dir, u, g, true, three));
  }

  /** And so does case 4. */
  lemma TwiceBalanced(up: Above, g: Node, dir: bool, u: Tree, p: Node, one: Tree, two: Tree, n: Node, three: Tree)
    requires Waiting(Under(Under(up, g, false, dir, u), p, true, !dir, one), Fork(dir, two, n, true, three))
      && !RedRoot(u)
    ensures var t := Fork(dir, Fork(dir, one, p, true, two), n, false, Fork(dir, three, g, true, u));
      Balanced(t) && !RedRoot(t) && BalancedAbove(up, BlackHeight(t))
  {
    var s := Fork(dir, two, n, true, three);
    assert Balanced(two) && Balanced(three) && !RedRoot(two) && !RedRoot(three);
    assert BlackHeight(two) == BlackHeight(three) == BlackHeight(s);
    UnderBalanced(Under(up, g, false, dir, u), p, true, !dir, one, BlackHeight(s));
    UnderBalanced(up, g, false, dir, u, BlackHeight(s));
    ForkBalanced(dir, one, p, true, two);
    ForkBalanced(dir, three, g, true, u);
    ForkBalanced(dir, Fork(dir, one, p, true, two), n, false, Fork(dir, three, g, true, u));
  }

  /** Two steps up at once. */
  lemma ClimbTwo(up: Above, g: Node, gd: bool, u: Tree, p: Node, pd: bool, other: Tree, s: Tree)
    ensures Around(Under(Under(up, g, false, gd, u), p, true, pd, other), s)
      == Around(up, Fork(gd, Fork(pd, s, p, true, other), g, false, u))
  {
    var c, f := Under(up, g, false, gd, u), Fork(pd, s, p, true, other);
    Climb(Under(c, p, true, pd, other), s);
    Climb(c, f);
  }

  lemma SameOrder(c: Above, t: Tree, t': Tree)
    requires InOrder(t) == InOrder(t')
    ensures Around(c, t) == Around(c, t')
  {
  }

  lemma OnceOrder(g: Node, dir: bool, u: Tree, p: Node, three: Tree, s: Tree)
    ensures InOrder(Fork(dir, s, p, false, Fork(!dir, u, g, true, three))) == InOrder(Fork(dir,
      Fork(dir, s, p, true, three), g, false, u))
  {
    var a, b, c := InOrder(s), InOrder(three), InOrder(u);
    if dir {
      assert (c + [g] + b) + [p] + a == c + [g] + (b + [p] + a);
    } else {
      assert a + [p] + (b + [g] + c) == (a + [p] + b) + [g] + c;
    }
  }

  lemma TwiceOrder(g: Node, dir: bool, u: Tree, p: Node, one: Tree, two: Tree, n: Node, three: Tree)
    ensures InOrder(Fork(dir, Fork(dir, one, p, true, two), n, false, Fork(dir, three, g, true, u)))
      == InOrder(Fork(dir, Fork(!dir, Fork(dir, two, n, true, three), p, true, one), g, false, u))
  {
    var a, b, c, d := InOrder(one), InOrder(two), InOrder(three), InOrder(u);
    if dir {
      Rearranged(d, [g], c, [n], b + [p] + a);
      Rearranged(c, [n], b, [p], a);
      assert InOrder(Fork(!dir, Fork(dir, two, n, true, three), p, true, one)) == c + [n] + b + [p] + a;
    } else {
      Rearranged(a + [p] + b, [n], c, [g], d);
      Rearranged(a, [p], b, [n], c);
      assert InOrder(Fork(!dir, Fork(dir, two, n, true, three), p, true, one)) == a + [p] + (b + [n] + c);
    }
  }

  lemma Rearranged(a: seq<Node>, x: seq<Node>, b: seq<Node>, y: seq<Node>, c: seq<Node>)
    ensures (a + x + b) + y + c == a + x + (b + y + c)
  {
  }

  /** The assignments of case 3. */
  method Recolour(g: Node, p: Node, v: Node, ghost up: Above, ghost gd: bool, ghost u: Tree, ghost d: bool,
      ghost three: Tree, ghost s: Tree)
      returns (ghost t: Tree)
    requires Placed(Under(Under(up, g, false, gd, u), p, true, d, three), s) && RedRoot(u) && v == u.node
    modifies NodesAbove(Under(Under(up, g, false, gd, u), p, true, d, three))
    ensures t == Fork(gd, Fork(d, s, p, false, three), g, true, Bin(u.left, v, false, u.right)) && Placed(up, t)
  {
    hide Placed, Rep, RepAbove, Distinct, DistinctAbove, Nodes, NodesAbove;
    TwoUpLinks(up, g, gd, u, p, d, three, s);
    TwoUpSets(up, g, gd, u, p, d, three, s);
    OneDown(false, u.left, v, true, u.right, g);
    Live(s);
    Live(three);
    LiveAbove(up);
    t := Recoloured(g, p, v, gd, u, d, three, s);
    PlacedIf(up, t);
  }

  method Recoloured(g: Node, p: Node, v: Node, ghost gd: bool, ghost u: Tree, ghost d: bool, ghost three: Tree,
      ghost s: Tree)
      returns (ghost t: Tree)
    requires u.Bin? && u.node == v && Rep(s, p) && Rep(three, p) && Rep(u, g) && Distinct(s) && Distinct(three)
      && Distinct(u)
    requires g.Link(gd) == p && g.Link(!gd) == v && p.Link(d) == RootOf(s) && p.Link(!d) == RootOf(three)
      && p.parent == g
    requires Nodes(u) !! Nodes(three) && Nodes(u) !! Nodes(s) && Nodes(three) !! Nodes(s)
    requires p != g && p !in Nodes(u) + Nodes(three) + Nodes(s) && g !in Nodes(u) + Nodes(three) + Nodes(s)
    modifies g, p, v
    ensures t == Fork(gd, Fork(d, s, p, false, three), g, true, Bin(u.left, v, false, u.right))
    ensures Rep(t, old(g.parent)) && Distinct(t) && Nodes(t) == Nodes(s) + {p} + Nodes(three) + {g} + Nodes(u)
  {
    t := Fork(gd, Fork(d, s, p, false, three), g, true, Bin(u.left, v, false, u.right));
    hide Rep, Distinct, Nodes;
    OneDown(false, u.left, v, u.red, u.right, g);
    Live(u);
    Live(s);
    Live(three);
    ghost var a := Paint(p, false, d, s, three);
    Live(a);
    ghost var b := Paint(v, false, false, u.left, u.right);
    t := Paint(g, true, gd, a, b);
  }

  /** Gives the root of a tree a colour. */
  method Paint(x: Node, red: bool, ghost d: bool, ghost near: Tree, ghost far: Tree) returns (ghost t: Tree)
    requires x.Link(d) == RootOf(near) && x.Link(!d) == RootOf(far) && Rep(near, x) && Rep(far, x)
    requires Distinct(near) && Distinct(far) && Nodes(near) !! Nodes(far) && x !in Nodes(near) + Nodes(far)
    modifies x`red
    ensures t == Fork(d, near, x, red, far) && Rep(t, x.parent) && Distinct(t)
      && Nodes(t) == Nodes(near) + {x} + Nodes(far)
  {
    hide Rep, Distinct, Nodes;
    t := Fork(d, near, x, red, far);
    x.red := red;
    Forked(d, near, x, red, far);
  }

  lemma TopOfPlug(c: Above, t: Tree)
    requires t.Bin?
    ensures RootOf(Plug(c, t)) == TopNode(c, t.node)
    decreases c
  {
    if c.Under? {
      TopOfPlug(c.up, Fork(c.d, t, c.node, c.red, c.other));
    }
  }

  /** What the loop keeps: the red node n, its subtree and its place, the order and the nodes of the whole tree. */
  ghost predicate Rising(at: Above, s: Tree, n: Node, root: Node?, order: seq<Node>, all: set<Node>)
    reads Nodes(s), NodesAbove(at)
  {
    && Placed(at, s) && Waiting(at, s) && RootOf(s) == n
    && Around(at, s) == order && Nodes(s) + NodesAbove(at) == all && (at.Under? ==> root == TopNode(at, n))
  }

  /** What capn_tree_insert returns. */
  ghost predicate RedBlack(t: Tree, root: Node?, order: seq<Node>)
    reads Nodes(t)
  {
    Rep(t, null) && Distinct(t) && Balanced(t) && !RedRoot(t) && RootOf(t) == root && InOrder(t) == order
  }

  lemma Finished(at: Above, s: Tree, root: Node?, order: seq<Node>)
    requires Placed(at, s) && s.Bin? && Balanced(s) && BalancedAbove(at, BlackHeight(s)) && Around(at, s) == order
    requires !(RedRoot(s) && (at == Top || RedParent(at))) && root == TopNode(at, s.node)
    ensures RedBlack(Plug(at, s), root, order) && Nodes(Plug(at, s)) == Nodes(s) + NodesAbove(at)
  {
    PlugPlaced(at, s);
    PlugOrder(at, s);
    PlugBalanced(at, s);
    TopOfPlug(at, s);
    PlugNodes(at, s);
    hide Balanced, BalancedAbove, Distinct, DistinctAbove, RepAbove, Rep, Nodes, NodesAbove;
  }

  lemma {:induction false} PlugNodes(c: Above, t: Tree)
    ensures Nodes(Plug(c, t)) == Nodes(t) + NodesAbove(c)
    decreases c
  {
    if c.Under? {
      PlugNodes(c.up, Fork(c.d, t, c.node, c.red, c.other));
    }
  }

  /**
   capn_tree_insert: given a node that is hooked up as a leaf of a balanced tree, it returns the root of a
   balanced tree of the same nodes in the same order, its links in both directions in place.
   */
  method Insert(root: Node?, start: Node, ghost c: Above) returns (root': Node, ghost t: Tree)
    requires RepAbove(c, start) && start.parent == Parent(c) && DistinctAbove(c) && start !in NodesAbove(c)
    requires BalancedAbove(c, 0) && (c.Under? ==> root == TopNode(c, start))
    modifies start, NodesAbove(c)
    ensures RedBlack(t, root', Before(c) + [start] + Behind(c)) && Nodes(t) == NodesAbove(c) + {start}
  {
    LiveAbove(c);
    ghost var order, all := Before(c) + [start] + Behind(c), NodesAbove(c) + {start};
    ghost var at, s := c, Bin(Leaf, start, true, Leaf);
    start.red := true;
    start.left, start.right := null, null;
    var n, top := start, root;
    StartsRising(c, start, root);
    hide Rising, RedBlack, NodesAbove, Nodes, DistinctAbove, Distinct, Rep, RepAbove, BalancedAbove;
    while true
      invariant Rising(at, s, n, top, order, all)
      decreases at
    {
      var done;
      done, n, top, at, s := Step(n, top, at, s, order, all);
      if done {
        root', t := top, s;
        return;
      }
    }
  }

  lemma Alone(s: Tree, leaf: Tree, n: Node)
    requires leaf.Leaf? && s == Bin(leaf, n, true, leaf)
    ensures Balanced(s) && BlackHeight(s) == 0 && InOrder(s) == [n] && Nodes(s) == {n}
  {
  }

  lemma StartsRising(c: Above, start: Node, root: Node?)
    requires RepAbove(c, start) && start.parent == Parent(c) && DistinctAbove(c) && start !in NodesAbove(c)
    requires BalancedAbove(c, 0) && (c.Under? ==> root == TopNode(c, start))
    requires start.red && start.left == null && start.right == null
    ensures Rising(c, Bin(Leaf, start, true, Leaf), start, root, Before(c) + [start] + Behind(c),
      NodesAbove(c) + {start})
  {
    var s := Bin(Leaf, start, true, Leaf);
    Forked(false, Leaf, start, true, Leaf);
    Alone(s, Leaf, start);
    hide RepAbove, DistinctAbove, NodesAbove, BalancedAbove, Before, Behind, TopNode;
  }

  /** What the turn reads: the parent and its colour, the grandparent, the uncle, and on which sides they are. */
  lemma Neighbours(at: Above, s: Tree, n: Node)
    requires Placed(at, s) && RootOf(s) == n && Waiting(at, s)
    ensures n.parent == Parent(at) && n in Nodes(s)
    ensures at.Under? ==> at.node.red == at.red
    ensures RedParent(at) ==>
      && at.up.Under? && !at.up.red && at.node.parent == at.up.node
      && (n == at.node.right <==> at.d)
    ensures RedParent(at) ==> var v := at.up.node.Link(!at.up.d);
      (at.node == at.up.node.right <==> at.up.d) && v == RootOf(at.up.other)
        && ((v != null && v.red) <==> RedRoot(at.up.other))
  {
    if RedParent(at) {
      var c := at.up;
      TwoUpLinks(c.up, c.node, c.d, c.other, at.node, at.d, at.other, s);
      TwoUpSets(c.up, c.node, c.d, c.other, at.node, at.d, at.other, s);
      if c.other.Bin? {
        assert c.other.node in Nodes(c.other);
      }
      if at.other.Bin? {
        assert at.other.node in Nodes(at.other);
      }
    }
  }

  /** One turn of the loop: done, or two levels further up. */
  method Step(n: Node, root: Node?, ghost at: Above, ghost s: Tree, ghost order: seq<Node>, ghost all: set<Node>)
      returns (done: bool, n': Node, root': Node?, ghost at': Above, ghost s': Tree)
    requires Rising(at, s, n, root, order, all)
    modifies all
    ensures if done then root' != null && RedBlack(s', root', order) && Nodes(s') == all
            else Rising(at', s', n', root', order, all) && at' < at
  {
    Neighbours(at, s, n);
    hide RedBlack, NodesAbove, Nodes, DistinctAbove, Distinct, Rep, RepAbove, BalancedAbove, Placed, Balanced,
      Around, TopNode;
    done, n', root', at', s' := true, n, root, at, s;
    var p := n.parent;
    if p == null {
      s' := BlackRoot(n, s, order);
      root' := n;
      return;
    }
    if !p.red {
      Finished(at, s, root, order);
      s' := Plug(at, s);
      return;
    }
    done, n', root', at', s' := StepRed(n, p, root, at, s, order, all);
  }

  function Near(s: Tree, d: bool): Tree
    requires s.Bin?
  {
    if d then s.right else s.left
  }

  /** The parent is red: the uncle decides between going on and a last rotation. */
  method StepRed(n: Node, p: Node, root: Node?, ghost at: Above, ghost s: Tree, ghost order: seq<Node>,
      ghost all: set<Node>)
      returns (done: bool, n': Node, root': Node?, ghost at': Above, ghost s': Tree)
    requires Rising(at, s, n, root, order, all) && RedParent(at) && p == at.node
    modifies all
    ensures if done then root' != null && RedBlack(s', root', order) && Nodes(s') == all
            else Rising(at', s', n', root', order, all) && at' < at
  {
    Neighbours(at, s, n);
    NodesIn(at, s);
    ghost var up, u, other := at.up.up, at.up.other, at.other;
    hide RedBlack, NodesAbove, Nodes, DistinctAbove, Distinct, Rep, RepAbove, BalancedAbove, Placed, Balanced,
      Around, TopNode, InOrder, BlackHeight;
    var g := p.parent;
    var dir := p == g.right;
    assert at == Under(Under(up, g, false, dir, u), p, true, at.d, other);
    var v := g.Link(!dir);
    if v != null && v.red {
      RecolourKeeps(up, g, dir, u, p, at.d, other, s, order, all);
      s' := Recolour(g, p, v, up, dir, u, at.d, other, s);
      return false, g, root, up, s';
    }
    done, n', at' := true, n, at;
    if dir != (n == p.right) {
      assert s == Fork(dir, Near(s, dir), n, true, Near(s, !dir));
      TwiceKeeps(up, g, dir, u, p, other, Near(s, dir), n, Near(s, !dir), order, all);
      root', s' := RotateTwice(root, g, p, n, dir, up, u, other, Near(s, dir), Near(s, !dir));
    } else {
      OnceKeeps(up, g, dir, u, p, other, s, order, all);
      root', s' := RotateOnce(root, g, p, dir, up, u, other, s);
    }
    Finished(up, s', root', order);
    s' := Plug(up, s');
  }

  lemma NodesIn(at: Above, s: Tree)
    ensures NodesAbove(at) <= NodesAbove(at) + Nodes(s) && Nodes(s) <= NodesAbove(at) + Nodes(s)
  {
  }

  /** The pure part of case 3: what is kept, whatever is written. */
  lemma RecolourKeeps(up: Above, g: Node, gd: bool, u: Tree, p: Node, d: bool, other: Tree, s: Tree,
      order: seq<Node>, all: set<Node>)
    requires Waiting(Under(Under(up, g, false, gd, u), p, true, d, other), s) && RedRoot(u)
    requires Around(Under(Under(up, g, false, gd, u), p, true, d, other), s) == order
    requires Nodes(s) + NodesAbove(Under(Under(up, g, false, gd, u), p, true, d, other)) == all
    ensures var t := Fork(gd, Fork(d, s, p, false, other), g, true, Bin(u.left, u.node, false, u.right));
      && Waiting(up, t) && RootOf(t) == g && Around(up, t) == order && Nodes(t) + NodesAbove(up) == all
    ensures s.Bin? ==> TopNode(Under(Under(up, g, false, gd, u), p, true, d, other), s.node) == TopNode(up, g)
  {
    var t := Fork(gd, Fork(d, s, p, false, other), g, true, Bin(u.left, u.node, false, u.right));
    RecolourBalanced(up, g, gd, u, p, d, other, s);
    ClimbTwo(up, g, gd, u, p, d, other, s);
    assert InOrder(Fork(d, s, p, false, other)) == InOrder(Fork(d, s, p, true, other));
    assert InOrder(t) == InOrder(Fork(gd, Fork(d, s, p, true, other), g, false, u));
    SameOrder(up, t, Fork(gd, Fork(d, s, p, true, other), g, false, u));
    assert NodesAbove(Under(Under(up, g, false, gd, u), p, true, d,
      other)) == NodesAbove(up) + {g} + Nodes(u) + {p} + Nodes(other);
    assert Nodes(Fork(d, s, p, false, other)) == Nodes(s) + {p} + Nodes(other);
    hide Waiting, Around, InOrder;
  }

  lemma OnceKeeps(up: Above, g: Node, dir: bool, u: Tree, p: Node, three: Tree, s: Tree, order: seq<Node>,
      all: set<Node>)
    requires Waiting(Under(Under(up, g, false, dir, u), p, true, dir, three), s) && !RedRoot(u)
    requires Around(Under(Under(up, g, false, dir, u), p, true, dir, three), s) == order
    requires Nodes(s) + NodesAbove(Under(Under(up, g, false, dir, u), p, true, dir, three)) == all
    ensures var t := Fork(dir, s, p, false, Fork(!dir, u, g, true, three));
      && t.Bin? && t.node == p && Balanced(t) && !RedRoot(t) && BalancedAbove(up, BlackHeight(t))
      && Around(up, t) == order && Nodes(t) + NodesAbove(up) == all
    ensures s.Bin? ==> TopNode(Under(Under(up, g, false, dir, u), p, true, dir, three), s.node) == TopNode(up, g)
    ensures up.Under? ==> TopNode(up, g) == TopNode(up, p)
  {
    var t := Fork(dir, s, p, false, Fork(!dir, u, g, true, three));
    OnceBalanced(up, g, dir, u, p, three, s);
    ClimbTwo(up, g, dir, u, p, dir, three, s);
    OnceOrder(g, dir, u, p, three, s);
    SameOrder(up, t, Fork(dir, Fork(dir, s, p, true, three), g, false, u));
    assert NodesAbove(Under(Under(up, g, false, dir, u), p, true, dir,
      three)) == NodesAbove(up) + {g} + Nodes(u) + {p} + Nodes(three);
    assert Nodes(Fork(!dir, u, g, true, three)) == Nodes(u) + {g} + Nodes(three);
    hide Around, InOrder, Balanced, BlackHeight, BalancedAbove;
  }

  lemma TwiceKeeps(up: Above, g: Node, dir: bool, u: Tree, p: Node, one: Tree, two: Tree, n: Node, three: Tree,
      order: seq<Node>, all: set<Node>)
    requires Waiting(Under(Under(up, g, false, dir, u), p, true, !dir, one), Fork(dir, two, n, true, three))
      && !RedRoot(u)
    requires Around(Under(Under(up, g, false, dir, u), p, true, !dir, one), Fork(dir, two, n, true, three)) == order
    requires Nodes(Fork(dir, two, n, true, three)) + NodesAbove(Under(Under(up, g, false, dir, u), p, true, !dir,
      one)) == all
    ensures var t := Fork(dir, Fork(dir, one, p, true, two), n, false, Fork(dir, three, g, true, u));
      && t.Bin? && t.node == n && Balanced(t) && !RedRoot(t) && BalancedAbove(up, BlackHeight(t))
      && Around(up, t) == order && Nodes(t) + NodesAbove(up) == all
    ensures TopNode(Under(Under(up, g, false, dir, u), p, true, !dir, one), n) == TopNode(up, g)
    ensures up.Under? ==> TopNode(up, g) == TopNode(up, n)
  {
    var s := Fork(dir, two, n, true, three);
    var t := Fork(dir, Fork(dir, one, p, true, two), n, false, Fork(dir, three, g, true, u));
    TwiceBalanced(up, g, dir, u, p, one, two, n, three);
    ClimbTwo(up, g, dir, u, p, !dir, one, s);
    TwiceOrder(g, dir, u, p, one, two, n, three);
    SameOrder(up, t, Fork(dir, Fork(!dir, s, p, true, one), g, false, u));
    assert NodesAbove(Under(Under(up, g, false, dir, u), p, true, !dir,
      one)) == NodesAbove(up) + {g} + Nodes(u) + {p} + Nodes(one);
    assert Nodes(s) == Nodes(two) + {n} + Nodes(three);
    assert Nodes(Fork(dir, one, p, true, two)) == Nodes(one) + {p} + Nodes(two)
      && Nodes(Fork(dir, three, g, true, u)) == Nodes(three) + {g} + Nodes(u);
    hide Around, InOrder, Balanced, BlackHeight, BalancedAbove;
  }

  /** Case 1. */
  method BlackRoot(n: Node, ghost s: Tree, ghost order: seq<Node>) returns (ghost t: Tree)
    requires Placed(Top, s) && Waiting(Top, s) && RootOf(s) == n && Around(Top, s) == order
    modifies n
    ensures RedBlack(t, n, order) && Nodes(t) == Nodes(s)
  {
    OneDown(false, s.left, n, true, s.right, null);
    t := Bin(s.left, n, false, s.right);
    assert Balanced(t) && InOrder(t) == InOrder(s) == order;
    hide Rep, Distinct, Nodes, InOrder, Balanced;
    n.red := false;
    Forked(false, s.left, n, false, s.right);
  }

  // ---- the right end of a tree --------------------------------------------------------------

  /** The way to the empty place behind the last node. */
  function Spine(t: Tree, up: Above): Above
    decreases t
  {
    if t.Bin? then Spine(t.right, Under(up, t.node, t.red, true, t.left)) else up
  }

  lemma {:induction false} SpineOrder(t: Tree, up: Above)
    ensures Before(Spine(t, up)) == Before(up) + InOrder(t) && Behind(Spine(t, up)) == Behind(up)
    ensures NodesAbove(Spine(t, up)) == NodesAbove(up) + Nodes(t)
    decreases t
  {
    if t.Bin? {
      var next := Under(up, t.node, t.red, true, t.left);
      SpineOrder(t.right, next);
      var a, l, r := Before(up), InOrder(t.left), InOrder(t.right);
      assert a + (l + [t.node]) + r == a + (l + [t.node] + r);
      assert [] + Behind(up) == Behind(up);
    }
  }

  lemma {:induction false} SpineBalanced(t: Tree, up: Above)
    requires Balanced(t) && BalancedAbove(up, BlackHeight(t)) && (RedRoot(t) ==> up.Under? && !up.red)
    ensures BalancedAbove(Spine(t, up), 0)
    decreases t
  {
    if t.Bin? {
      SpineBalanced(t.right, Under(up, t.node, t.red, true, t.left));
    }
  }

  lemma {:induction false} SpinePlaced(t: Tree, up: Above)
    requires Placed(up, t)
    ensures Placed(Spine(t, up), Leaf)
    decreases t
  {
    if t.Bin? {
      StepDown(t, up);
      SpinePlaced(t.right, Under(up, t.node, t.red, true, t.left));
    }
  }

  lemma StepDown(t: Tree, up: Above)
    requires t.Bin? && Placed(up, t)
    ensures Placed(Under(up, t.node, t.red, true, t.left), t.right)
  {
  }

  lemma {:induction false} SpineLast(t: Tree, up: Above, x: Node)
    requires t.Bin?
    ensures InOrder(t) != [] && Spine(t, up).Under? && Spine(t, up).d
      && Spine(t, up).node == InOrder(t)[|InOrder(t)| - 1]
    ensures TopNode(Spine(t, up), x) == TopNode(up, t.node)
    decreases t
  {
    if t.right.Bin? {
      SpineLast(t.right, Under(up, t.node, t.red, true, t.left), x);
    }
  }

  lemma {:induction false} OrderHasNodes(t: Tree)
    ensures forall n :: n in InOrder(t) <==> n in Nodes(t)
  {
    if t.Bin? {
      OrderHasNodes(t.left);
      OrderHasNodes(t.right);
    }
  }

  // ---- the index of a session ---------------------------------------------------------------

  /** Ids are positions. */
  ghost predicate Numbered(segs: seq<Node>)
    reads set i | 0 <= i < |segs| :: segs[i].seg
  {
    forall i | 0 <= i < |segs| :: segs[i].seg.id == i
  }

  /** Gives the next segment its id. */
  method Number(s: Node, id: nat, ghost segs: seq<Node>)
    requires Numbered(segs) && id == |segs| && forall i | 0 <= i < |segs| :: segs[i].seg != s.seg
    modifies s.seg
    ensures Numbered(segs + [s])
  {
    s.seg.id := id;
  }

  /** The segment list and the segment tree of struct capn. */
  class Index {
    var segtree: Node?
    var lastseg: Node?
    var segnum: nat
    ghost var tree: Tree
    ghost var segs: seq<Node>

    constructor ()
      ensures Valid() && segs == [] && tree == Leaf
    {
      segtree, lastseg, segnum, tree, segs := null, null, 0, Leaf, [];
    }

    /** The tree is a balanced one of the segments in the order of their ids, which count from 0. */
    ghost predicate Valid()
      reads this, Nodes(tree), set i | 0 <= i < |segs| :: segs[i].seg
    {
      && RedBlack(tree, segtree, segs) && segnum == |segs|
      && lastseg == (if segs == [] then null else segs[|segs| - 1])
      && Numbered(segs)
    }

    /** capn_append_segment */
    method Append(s: Node)
      requires Valid() && s !in Nodes(tree) && forall i | 0 <= i < |segs| :: segs[i].seg != s.seg
      modifies this, s, s.seg, Nodes(tree)
      ensures Valid() && segs == old(segs) + [s] && Nodes(tree) == old(Nodes(tree)) + {s} && segnum == old(segnum) + 1
    {
      hide RedBlack, Nodes, Numbered;
      Live(tree);
      Number(s, segnum, segs);
      segnum := segnum + 1;
      segtree, tree := InsertLast(segtree, lastseg, s, tree, segs);
      lastseg, segs := s, segs + [s];
    }
  }

  /** A run of `order`, from number `base` on. */
  ghost predicate RunAt<T>(order: seq<T>, base: nat, run: seq<T>) {
    base + |run| <= |order| && forall i | 0 <= i < |run| :: order[base + i] == run[i]
  }

  lemma RunParts<T>(order: seq<T>, base: nat, left: seq<T>, x: T, right: seq<T>)
    requires RunAt(order, base, left + [x] + right)
    ensures RunAt(order, base, left) && base + |left| < |order| && order[base + |left|] == x
    ensures RunAt(order, base + |left| + 1, right)
  {
    var run, k := left + [x] + right, |left| + 1;
    assert run[|left|] == x;
    forall i | 0 <= i < |left| ensures order[base + i] == left[i] {
      assert run[i] == left[i];
    }
    forall i | 0 <= i < |right| ensures order[base + k + i] == right[i] {
      assert run[k + i] == right[i];
    }
  }

  lemma Opened(t: Tree)
    requires t.Bin?
    ensures InOrder(t) == InOrder(t.left) + [t.node] + InOrder(t.right)
    ensures Height(t.left) < Height(t) && Height(t.right) < Height(t)
  {
  }

  lemma IdAt(segs: seq<Node>, i: nat)
    requires Numbered(segs) && i < |segs|
    ensures segs[i].seg.id == i
  {
  }

  /** A path in a balanced tree is at most twice the logarithm of its size. */
  lemma ShortPaths(t: Tree, steps: nat)
    requires Balanced(t) && !RedRoot(t) && steps <= Height(t)
    ensures Pow2((steps + 1) / 2) <= |InOrder(t)| + 1
  {
    HeightBound(t);
    Pow2Grows((steps + 1) / 2, BlackHeight(t));
  }

  /** The search for `id` has come down to subtree t after `steps` nodes, with `most` to be looked at in all. */
  ghost predicate Searching(t: Tree, above: Node?, order: seq<Node>, base: nat, id: nat, steps: nat, most: nat)
    reads Nodes(t)
  {
    Rep(t, above) && RunAt(order, base, InOrder(t)) && base <= id < base + |InOrder(t)| && steps + Height(t) <= most
  }

  /** One turn of the search. */
  lemma Descend(t: Tree, above: Node?, order: seq<Node>, base: nat, id: nat, steps: nat, most: nat)
    requires Searching(t, above, order, base, id, steps, most) && Numbered(order)
    ensures t.Bin? && t.node.left == RootOf(t.left) && t.node.right == RootOf(t.right) && steps < most
    ensures var k := base + |InOrder(t.left)|;
      && k < |order| && order[k] == t.node && t.node.seg.id == k
      && (id < k ==> Searching(t.left, t.node, order, base, id, steps + 1, most))
      && (id > k ==> Searching(t.right, t.node, order, k + 1, id, steps + 1, most))
  {
    assert t.Bin? && t.node.left == RootOf(t.left) && t.node.right == RootOf(t.right) && Rep(t.left, t.node)
      && Rep(t.right, t.node);
    Opened(t);
    hide InOrder, Height, Rep, Numbered, RunAt;
    RunParts(order, base, InOrder(t.left), t.node, InOrder(t.right));
    IdAt(order, base + |InOrder(t.left)|);
  }

  lemma SearchStarts(t: Tree, root: Node?, order: seq<Node>, id: nat)
    requires RedBlack(t, root, order) && id < |order|
    ensures root == RootOf(t) && Searching(t, null, order, 0, id, 0, Height(t))
  {
    hide Balanced, Distinct, InOrder, Height;
  }

  lemma IsNumber(order: seq<Node>, n: Node)
    requires Numbered(order) && n in order
    ensures n.seg.id < |order| && order[n.seg.id] == n
  {
  }

  /** The loop of lookup_segment. It never runs off the tree, so the callback behind it is not reached. */
  method Search(root: Node?, id: nat, ghost tree: Tree, ghost order: seq<Node>) returns (y: Node, ghost steps: nat)
    requires RedBlack(tree, root, order) && Numbered(order) && id < |order|
    ensures y == order[id] && steps <= Height(tree)
  {
    hide RedBlack, Numbered, Searching, InOrder, Height, Nodes;
    SearchStarts(tree, root, order, id);
    var x := root;
    ghost var t: Tree, base: nat, above: Node? := tree, 0, null;
    steps := 0;
    while true
      invariant x == RootOf(t) && Searching(t, above, order, base, id, steps, Height(tree))
      decreases t
    {
      Descend(t, above, order, base, id, steps, Height(tree));
      steps := steps + 1;
      if id == x.seg.id {
        return x, steps;
      }
      above := x;
      if id < x.seg.id {
        x, t := x.left, t.left;
      } else {
        base := base + |InOrder(t.left)| + 1;
        x, t := x.right, t.right;
      }
    }
  }

  /**
   lookup_segment, without the user's callback: the segment with this id, given any segment of the session
   to try first, in a number of steps that is logarithmic in the number of segments.
   */
  method Lookup(index: Index, hint: Node?, id: nat) returns (y: Node?, ghost steps: nat)
    requires index.Valid() && (hint != null ==> hint in index.segs)
    ensures if id < index.segnum then y == index.segs[id] else y == null
    ensures Pow2((steps + 1) / 2) <= index.segnum + 1
  {
    assert Balanced(index.tree) && !RedRoot(index.tree) && InOrder(index.tree) == index.segs;
    hide RedBlack, Numbered, Pow2, Height, InOrder, Balanced, Nodes;
    steps := 0;
    Pow2Of(index.segnum);
    if hint != null {
      IsNumber(index.segs, hint);
      if hint.seg.id == id {
        return hint, steps;
      }
    }
    if id >= index.segnum {
      return null, steps;
    }
    y, steps := Search(index.segtree, id, index.tree, index.segs);
    ShortPaths(index.tree, steps);
  }

  lemma Pow2Of(n: nat)
    ensures Pow2((0 + 1) / 2) <= n + 1
  {
  }

  /** Hooks a node up to the right of the last one and inserts it there. */
  method InsertLast(root: Node?, last: Node?, s: Node, ghost t: Tree, ghost order: seq<Node>) returns (root': Node,
      ghost t': Tree)
    requires RedBlack(t, root, order) && last == (if order == [] then null else order[|order| - 1]) && s !in Nodes(t)
    modifies s, Nodes(t)
    ensures RedBlack(t', root', order + [s]) && Nodes(t') == Nodes(t) + {s}
  {
    ghost var c := Spine(t, Top);
    SpineReady(t, root, order, s);
    hide RedBlack, Nodes, NodesAbove, Rep, RepAbove, DistinctAbove, Distinct, BalancedAbove, InOrder, TopNode, Spine;
    HookUp(last, s, c);
    root', t' := Insert(root, s, c);
    assert order + [s] + [] == order + [s];
  }

  /** The new node becomes the right child of the last one. */
  method HookUp(last: Node?, s: Node, ghost c: Above)
    requires RepAbove(c, null) && DistinctAbove(c) && s !in NodesAbove(c)
    requires last == Parent(c) && (c.Under? ==> c.d && c.node in NodesAbove(c))
    modifies s, NodesAbove(c)
    ensures RepAbove(c, s) && s.parent == Parent(c)
  {
    LiveAbove(c);
    s.parent := last;
    if last != null {
      assert Rep(c.other, c.node) && RepAbove(c.up, c.node) && c.node !in Nodes(c.other) && c.node !in NodesAbove(c.up);
      last.right := s;
    }
  }

  /** Everything Insert asks of the place behind the last node. */
  lemma SpineReady(t: Tree, root: Node?, order: seq<Node>, s: Node)
    requires RedBlack(t, root, order) && s !in Nodes(t)
    ensures var c := Spine(t, Top);
      && RepAbove(c, null) && DistinctAbove(c) && s !in NodesAbove(c) && NodesAbove(c) == Nodes(t)
        && BalancedAbove(c, 0)
      && (c.Under? ==> root == TopNode(c, s) && c.d && c.node in NodesAbove(c))
      && Parent(c) == (if order == [] then null else order[|order| - 1])
      && Before(c) == order && Behind(c) == []
  {
    assert Placed(Top, t) && BalancedAbove(Top, BlackHeight(t));
    SpinePlaced(t, Top);
    SpineBalanced(t, Top);
    SpineOrder(t, Top);
    assert [] + InOrder(t) == InOrder(t);
    if t.Bin? {
      SpineLast(t, Top, s);
    }
  }
}
