/**
 capn_validate: a depth-first walk over a graph that need not be a tree, with an explicit stack and the
 visited set. It ends on every message; when it accepts, what it leaves behind is a certificate that the
 graph behind the root has no cycle and no pointer that cannot be read.
 */
module Validate {
  import opened Powers
  import opened Wire
  import opened Arena
  import opened Pointers
  import opened VisitedSet

  /** What a pointer slot holds; a capability is known by the slot that holds it. */
  datatype Node = Node(p: Ptr, key: Key)

  datatype SlotValue = Unreadable | Zero | Found(node: Node)

  const INTERFACE := 5

  /** The key under which vset_enter files what slot d of segment s was read as. */
  function NodeKey(m: Mem, s: nat, d: nat, p: Ptr): (k: Key)
    requires s < |m| && d < |m[s]| && p != Null && ReadSlot(m, s, d) == Got(p)
    ensures Inside(m, p) ==> InUniverse(m, k)
  {
    if p.Obj? then
      assert p.shape.Size() >= 0;
      KeyOf(p)
    else
      var w := Decode(m[s][d]);
      if w.FarPtr? then Key(w.seg, w.pos, INTERFACE, false) else Key(s, d, INTERFACE, false)
  }

  predicate InUniverse(m: Mem, k: Key) { k.seg < |m| && k.data <= |m[k.seg]| && k.kind <= INTERFACE }

  function ReadNode(m: Mem, s: nat, d: nat): (r: SlotValue)
    requires s < |m|
    ensures r.Found? ==> Inside(m, r.node.p) && InUniverse(m, r.node.key)
  {
    if d >= |m[s]| then Unreadable
    else if m[s][d] == 0 then Zero
    else match ReadSlot(m, s, d)
      case Broken => Unreadable
      case Got(p) => if p == Null then Unreadable else Found(Node(p, NodeKey(m, s, d, p)))
  }

  /** object_nchild */
  function Children(p: Ptr): nat {
    match p
    case Obj(_, _, shape, _) => if shape.Composite? then shape.n * shape.pw else shape.PtrWords()
    case _ => 0
  }

  /** child_slot: the word of pointer idx, counted over all elements of a list. */
  function ChildSlot(p: Ptr, idx: nat): (d: nat)
    requires idx < Children(p)
  {
    if p.shape.Composite? then p.data + idx / p.shape.pw * (p.shape.dw + p.shape.pw) + p.shape.dw + idx % p.shape.pw
    else p.data + p.shape.DataWords() + idx
  }

  /** Every child slot lies inside its object. */
  lemma ChildSlotInside(m: Mem, p: Ptr, idx: nat)
    requires Inside(m, p) && idx < Children(p)
    ensures p.seg < |m| && p.data <= ChildSlot(p, idx) < p.data + p.shape.Size() <= |m[p.seg]|
  {
    if p.shape.Composite? {
      CompositeSlot(idx, p.shape.n, p.shape.dw, p.shape.pw);
    }
  }

  lemma CompositeSlot(idx: nat, n: nat, dw: nat, pw: nat)
    requires pw > 0 && idx < n * pw
    ensures 0 <= idx / pw * (dw + pw) + dw + idx % pw < n * (dw + pw)
  {
    var i, k := idx / pw, dw + pw;
    if i >= n {
      NotFewer(i, n, pw);
      assert false;
    }
    RowFits(i, n, k);
  }

  lemma NotFewer(i: nat, n: nat, pw: nat)
    requires i >= n
    ensures i * pw >= n * pw
  {
  }

  lemma RowFits(i: nat, n: nat, k: nat)
    requires i < n
    ensures i * k + k <= n * k
  {
    assert i * k + k == (i + 1) * k;
  }

  /** The children are all the pointers of the object: pointer j of element i is one of them, in every element. */
  lemma EveryPointer(p: Ptr, i: nat, j: nat) returns (idx: nat)
    requires p.Obj? && i < p.shape.Elems() && j < p.shape.PtrWords()
    ensures idx < Children(p) && idx == i * p.shape.PtrWords() + j
    ensures ChildSlot(p, idx) == p.data + i * p.shape.Stride() + p.shape.DataWords() + j
  {
    idx := i * p.shape.PtrWords() + j;
    match p.shape
    case Composite(n, dw, pw) => Numbered(i, j, n, pw);
    case _ =>
  }

  lemma Numbered(i: nat, j: nat, n: nat, pw: nat)
    requires i < n && j < pw
    ensures i * pw + j < n * pw && (i * pw + j) / pw == i && (i * pw + j) % pw == j
  {
    RowFits(i, n, pw);
    assert i * pw + j == j + pw * i;
    Parts(i, pw, j);
  }

  /** And nothing else is. */
  lemma OnlyPointers(p: Ptr, idx: nat) returns (i: nat, j: nat)
    requires idx < Children(p)
    ensures i < p.shape.Elems() && j < p.shape.PtrWords() && idx == i * p.shape.PtrWords() + j
    ensures ChildSlot(p, idx) == p.data + i * p.shape.Stride() + p.shape.DataWords() + j
  {
    i, j := 0, idx;
    if p.shape.Composite? {
      var pw := p.shape.pw;
      i, j := idx / pw, idx % pw;
      if i >= p.shape.n {
        NotFewer(i, p.shape.n, pw);
        assert false;
      }
    }
  }

  // ---- the graph ----------------------------------------------------------------------------

  function ChildAt(m: Mem, n: Node, i: nat): (r: SlotValue)
    ensures r.Found? ==> Inside(m, r.node.p) && InUniverse(m, r.node.key)
  {
    if n.p.Obj? && n.p.seg < |m| && i < Children(n.p) then ReadNode(m, n.p.seg, ChildSlot(n.p, i)) else Zero
  }

  /** What is at the end of a path of pointers from the root. */
  function Follow(m: Mem, root: Node, path: seq<nat>): (r: SlotValue)
    ensures path != [] && r.Found? ==> Inside(m, r.node.p)
  {
    if path == [] then Found(root)
    else
      var r := Follow(m, root, path[..|path| - 1]);
      if r.Found? then ChildAt(m, r.node, path[|path| - 1]) else Zero
  }

  // ---- the certificate ----------------------------------------------------------------------

  /**
   For every finished key the object that was visited, where it was found, within the nesting limit, and when it was
   finished.
   */
  datatype Certificate =
    Certificate(nesting: nat, rank: map<Key, nat>, rep: map<Key, Node>, trail: map<Key, seq<nat>>)

  /** Pointer i of a node is null or leads to something that was finished before time r. */
  predicate Settled(m: Mem, rank: map<Key, nat>, n: Node, i: nat, r: nat) {
    var c := ChildAt(m, n, i);
    c == Zero || (c.Found? && c.node.key in rank && rank[c.node.key] < r)
  }

  ghost predicate Entered(m: Mem, root: Node, cert: Certificate, k: Key) {
    && k in cert.rank && k in cert.rep && k in cert.trail && |cert.trail[k]| < cert.nesting
    && cert.rep[k].key == k && Follow(m, root, cert.trail[k]) == Found(cert.rep[k])
    && forall i | 0 <= i < Children(cert.rep[k].p) :: Settled(m, cert.rank, cert.rep[k], i, cert.rank[k])
  }

  /** Everything that was finished is in order. */
  ghost predicate Certifies(m: Mem, root: Node, cert: Certificate, now: nat) {
    forall k | k in cert.rank :: Entered(m, root, cert, k) && cert.rank[k] < now
  }

  // ---- the walk -----------------------------------------------------------------------------

  /** struct capn_frame, with the remaining nesting of its pointer. */
  datatype Frame = Frame(node: Node, idx: nat, nchild: nat, nesting: nat)

  /** The path to frame t. */
  function TrailTo(stack: seq<Frame>, t: nat): (path: seq<nat>)
    requires t <= |stack| && forall u | 0 <= u < t :: stack[u].idx > 0
    ensures |path| == t
  {
    seq(t, u requires 0 <= u < t => stack[u].idx - 1)
  }

  /** Frame t, whose pointer below idx - 1, if another frame is on top of it, or below idx have been dealt with. */
  ghost predicate FrameOk(m: Mem, root: Node, rank: map<Key, nat>, limit: nat, stack: seq<Frame>, t: nat, now: nat)
    requires t < |stack|
  {
    var f := stack[t];
    var settled := if t + 1 < |stack| then f.idx - 1 else f.idx;
    && (forall u | 0 <= u < t :: stack[u].idx > 0)
    && Follow(m, root, TrailTo(stack, t)) == Found(f.node)
    && f.nchild == Children(f.node.p) && f.idx <= f.nchild && f.nesting + t + 1 == limit
    && Inside(m, f.node.p) && InUniverse(m, f.node.key)
    && (forall i | 0 <= i < settled :: Settled(m, rank, f.node, i, now))
  }

  function Keys(stack: seq<Frame>): (keys: seq<Key>)
    ensures |keys| == |stack|
  {
    seq(|stack|, t requires 0 <= t < |stack| => stack[t].node.key)
  }

  /** The marks are those of the stack and of what is finished. */
  ghost predicate Marked(rank: map<Key, nat>, keys: seq<Key>, marks: map<Key, Mark>) {
    && (forall k | k in marks :: k in rank || k in keys)
    && (forall k | k in rank :: k in marks && marks[k] == Done)
    && (forall t | 0 <= t < |keys| :: keys[t] in marks && marks[keys[t]] == Path)
    && (forall t, u | 0 <= t < u < |keys| :: keys[t] != keys[u])
  }

  ghost predicate FramesOk(m: Mem, root: Node, rank: map<Key, nat>, limit: nat, stack: seq<Frame>, now: nat) {
    forall t | 0 <= t < |stack| :: FrameOk(m, root, rank, limit, stack, t, now)
  }

  ghost predicate Known(m: Mem, marks: map<Key, Mark>) { forall k | k in marks :: InUniverse(m, k) }

  ghost predicate Walking(m: Mem, root: Node, limit: nat, stack: seq<Frame>, marks: map<Key, Mark>,
      cert: Certificate, now: nat) {
    && Certifies(m, root, cert, now) && Marked(cert.rank, Keys(stack), marks) && Known(m, marks)
    && cert.nesting == limit && FramesOk(m, root, cert.rank, limit, stack, now)
    && (if |stack| > 0 then stack[0].node == root else root.key in cert.rank)
  }

  // ---- the steps of the walk ----------------------------------------------------------------

  function Top(stack: seq<Frame>): Frame
    requires |stack| > 0
  {
    stack[|stack| - 1]
  }

  function Stepped(stack: seq<Frame>): seq<Frame>
    requires |stack| > 0
  {
    stack[|stack| - 1 := Top(stack).(idx := Top(stack).idx + 1)]
  }

  lemma TrailStays(stack: seq<Frame>, stack': seq<Frame>, t: nat)
    requires t <= |stack| && t <= |stack'| && (forall u | 0 <= u < t :: stack[u].idx > 0)
    requires forall u | 0 <= u < t :: stack'[u].idx == stack[u].idx
    ensures TrailTo(stack', t) == TrailTo(stack, t)
  {
  }

  /** The top frame's next pointer is null or leads to something finished. */
  lemma StepOver(m: Mem, root: Node, limit: nat, stack: seq<Frame>, marks: map<Key, Mark>, cert: Certificate, now: nat)
    requires Walking(m, root, limit, stack, marks, cert, now) && |stack| > 0 && Top(stack).idx < Top(stack).nchild
    requires Settled(m, cert.rank, Top(stack).node, Top(stack).idx, now)
    ensures Walking(m, root, limit, Stepped(stack), marks, cert, now)
  {
    hide Certifies, FrameOk, Known, Marked, Settled;
    forall t | 0 <= t < |stack| ensures FrameOk(m, root, cert.rank, limit, Stepped(stack), t, now) {
      FrameOver(m, root, limit, stack, cert.rank, now, t);
    }
    assert Keys(Stepped(stack)) == Keys(stack);
  }

  lemma FrameOver(m: Mem, root: Node, limit: nat, stack: seq<Frame>, rank: map<Key, nat>, now: nat, t: nat)
    requires |stack| > 0 && Top(stack).idx < Top(stack).nchild && t < |stack|
      && FrameOk(m, root, rank, limit, stack, t, now)
    requires Settled(m, rank, Top(stack).node, Top(stack).idx, now)
    ensures FrameOk(m, root, rank, limit, Stepped(stack), t, now)
  {
    hide Follow, ChildAt, Settled, InUniverse, Inside, TrailTo, Children;
    TrailStays(stack, Stepped(stack), t);
  }

  /** The top frame's next pointer leads to something new, which gets a frame of its own. */
  lemma StepInto(m: Mem, root: Node, limit: nat, stack: seq<Frame>, marks: map<Key, Mark>, cert: Certificate,
      now: nat, f: Frame)
    requires Walking(m, root, limit, stack, marks, cert, now) && |stack| > 0 && Top(stack).idx < Top(stack).nchild
    requires ChildAt(m, Top(stack).node, Top(stack).idx) == Found(f.node) && f.node.key !in marks
      && Top(stack).nesting > 0
    requires Inside(m, f.node.p) && InUniverse(m, f.node.key)
    requires f.idx == 0 && f.nchild == Children(f.node.p) && f.nesting == Top(stack).nesting - 1
    ensures Walking(m, root, limit, Stepped(stack) + [f], marks[f.node.key := Path], cert, now)
  {
    var next := Stepped(stack) + [f];
    MarkedInto(cert.rank, Keys(stack), marks, f.node.key);
    assert Keys(next) == Keys(stack) + [f.node.key];
    hide Certifies, FrameOk, Marked, ChildAt, Follow, Settled;
    forall t | 0 <= t < |next| ensures FrameOk(m, root, cert.rank, limit, next, t, now) {
      if t < |stack| {
        FrameInto(m, root, limit, stack, cert.rank, now, f, t);
      } else {
        FrameNew(m, root, limit, stack, cert.rank, now, f);
      }
    }
    hide InUniverse;
  }

  lemma FrameInto(m: Mem, root: Node, limit: nat, stack: seq<Frame>, rank: map<Key, nat>, now: nat, f: Frame, t: nat)
    requires |stack| > 0 && Top(stack).idx < Top(stack).nchild && t < |stack|
      && FrameOk(m, root, rank, limit, stack, t, now)
    ensures FrameOk(m, root, rank, limit, Stepped(stack) + [f], t, now)
  {
    hide Follow, ChildAt, Settled, InUniverse, Inside, TrailTo, Children;
    TrailStays(stack, Stepped(stack) + [f], t);
  }

  lemma FrameNew(m: Mem, root: Node, limit: nat, stack: seq<Frame>, rank: map<Key, nat>, now: nat, f: Frame)
    requires |stack| > 0 && Top(stack).idx < Top(stack).nchild && FrameOk(m, root, rank, limit, stack, |stack| - 1, now)
    requires ChildAt(m, Top(stack).node, Top(stack).idx) == Found(f.node) && Top(stack).nesting > 0
    requires Inside(m, f.node.p) && InUniverse(m, f.node.key)
    requires f.idx == 0 && f.nchild == Children(f.node.p) && f.nesting == Top(stack).nesting - 1
    ensures FrameOk(m, root, rank, limit, Stepped(stack) + [f], |stack|, now)
  {
    hide Follow, ChildAt, Settled, InUniverse, Inside, TrailTo, Children;
    var next, t := Stepped(stack) + [f], |stack| - 1;
    TrailStays(stack, next, t);
    TrailGrows(m, root, next, t);
  }

  lemma MarkedInto(rank: map<Key, nat>, keys: seq<Key>, marks: map<Key, Mark>, k: Key)
    requires Marked(rank, keys, marks) && k !in marks
    ensures Marked(rank, keys + [k], marks[k := Path])
  {
  }

  lemma TrailGrows(m: Mem, root: Node, stack: seq<Frame>, t: nat)
    requires t + 1 <= |stack| && forall u | 0 <= u < t + 1 :: stack[u].idx > 0
    requires Follow(m, root, TrailTo(stack, t)) == Found(stack[t].node)
    ensures Follow(m, root, TrailTo(stack, t + 1)) == ChildAt(m, stack[t].node, stack[t].idx - 1)
  {
    var path := TrailTo(stack, t + 1);
    assert path[..t] == TrailTo(stack, t);
    hide ChildAt;
  }

  /** The top frame is done: it is finished now, after everything it points to. */
  lemma StepOut(m: Mem, root: Node, limit: nat, stack: seq<Frame>, marks: map<Key, Mark>, cert: Certificate, now: nat)
    requires Walking(m, root, limit, stack, marks, cert, now) && |stack| > 0 && Top(stack).idx == Top(stack).nchild
    ensures forall u | 0 <= u < |stack| - 1 :: stack[u].idx > 0
    ensures Walking(m, root, limit, stack[..|stack| - 1], marks[Top(stack).node.key := Done],
      Finished(stack, cert, now), now + 1)
  {
    var next, k := stack[..|stack| - 1], Top(stack).node.key;
    var t := |stack| - 1;
    assert FrameOk(m, root, cert.rank, limit, stack, t, now);
    assert forall u | 0 <= u < t :: stack[u].idx > 0;
    var done := Finished(stack, cert, now);
    assert Keys(stack) == Keys(next) + [k];
    MarkedOut(cert.rank, Keys(next), marks, k, now);
    OutCertifies(m, root, limit, stack, cert, now);
    hide FrameOk, Marked, Certifies, Follow, Settled;
    var later := now + 1;
    forall u | 0 <= u < |next| ensures FrameOk(m, root, done.rank, limit, next, u, later) {
      FrameOut(m, root, limit, stack, cert.rank, now, u);
    }
    hide InUniverse;
  }

  lemma MarkedOut(rank: map<Key, nat>, keys: seq<Key>, marks: map<Key, Mark>, k: Key, now: nat)
    requires Marked(rank, keys + [k], marks)
    ensures k !in rank && Marked(rank[k := now], keys, marks[k := Done])
  {
    var all := keys + [k];
    assert all[|keys|] == k;
    forall t | 0 <= t < |keys| ensures keys[t] != k && keys[t] in marks && marks[keys[t]] == Path {
      assert all[t] == keys[t];
    }
    forall t, u | 0 <= t < u < |keys| ensures keys[t] != keys[u] {
      assert all[t] == keys[t] && all[u] == keys[u];
    }
  }

  lemma SettledLater(m: Mem, rank: map<Key, nat>, n: Node, i: nat, now: nat, k: Key)
    requires Settled(m, rank, n, i, now) && k !in rank
    ensures Settled(m, rank[k := now], n, i, now) && Settled(m, rank[k := now], n, i, now + 1)
  {
    hide ChildAt;
  }

  lemma FrameOut(m: Mem, root: Node, limit: nat, stack: seq<Frame>, rank: map<Key, nat>, now: nat, t: nat)
    requires t + 1 < |stack| && FrameOk(m, root, rank, limit, stack, t, now) && Top(stack).node.key !in rank
    requires FrameOk(m, root, rank, limit, stack, t + 1, now)
    ensures FrameOk(m, root, rank[Top(stack).node.key := now], limit, stack[..|stack| - 1], t, now + 1)
  {
    var next, k, f := stack[..|stack| - 1], Top(stack).node.key, stack[t];
    hide InUniverse, Inside, Children, Follow, TrailTo, Settled, ChildAt;
    var rank', later := rank[k := now], now + 1;
    assert (forall u | 0 <= u < t :: stack[u].idx > 0) && Follow(m, root, TrailTo(stack, t)) == Found(f.node);
    TrailStays(stack, next, t);
    assert forall u | 0 <= u <= t :: stack[u].idx > 0;
    assert forall i | 0 <= i < f.idx - 1 :: Settled(m, rank, f.node, i, now);
    assert Follow(m, root, TrailTo(stack, t + 1)) == Found(stack[t + 1].node);
    assert f.nchild == Children(f.node.p) && f.idx <= f.nchild && f.nesting + t + 1 == limit
      && Inside(m, f.node.p) && InUniverse(m, f.node.key);
    FrameOutFrom(m, root, limit, stack, rank, now, t);
  }

  lemma FrameOutFrom(m: Mem, root: Node, limit: nat, stack: seq<Frame>, rank: map<Key, nat>, now: nat, t: nat)
    requires t + 1 < |stack| && Top(stack).node.key !in rank && (forall u | 0 <= u <= t :: stack[u].idx > 0)
    requires Follow(m, root, TrailTo(stack, t)) == Found(stack[t].node)
      && Follow(m, root, TrailTo(stack, t + 1)) == Found(stack[t + 1].node)
    requires TrailTo(stack[..|stack| - 1], t) == TrailTo(stack, t)
    requires forall i | 0 <= i < stack[t].idx - 1 :: Settled(m, rank, stack[t].node, i, now)
    requires stack[t].nchild == Children(stack[t].node.p) && stack[t].idx <= stack[t].nchild
      && stack[t].nesting + t + 1 == limit
    requires Inside(m, stack[t].node.p) && InUniverse(m, stack[t].node.key)
    ensures FrameOk(m, root, rank[Top(stack).node.key := now], limit, stack[..|stack| - 1], t, now + 1)
  {
    hide InUniverse, Inside, Children, Follow, TrailTo, Settled, ChildAt;
    var next, k, f := stack[..|stack| - 1], Top(stack).node.key, stack[t];
    var rank', later := rank[k := now], now + 1;
    forall i | 0 <= i < f.idx - 1 ensures Settled(m, rank', f.node, i, later) {
      assert Settled(m, rank, f.node, i, now);
      SettledLater(m, rank, f.node, i, now, k);
    }
    if t + 1 == |next| {
      LastSettled(m, root, stack, rank, now, t);
    }
  }

  /** The pointer that led to the frame on top leads to something finished now. */
  lemma LastSettled(m: Mem, root: Node, stack: seq<Frame>, rank: map<Key, nat>, now: nat, t: nat)
    requires t + 2 == |stack| && (forall u | 0 <= u <= t :: stack[u].idx > 0)
    requires Follow(m, root, TrailTo(stack, t)) == Found(stack[t].node)
      && Follow(m, root, TrailTo(stack, t + 1)) == Found(Top(stack).node)
    ensures Settled(m, rank[Top(stack).node.key := now], stack[t].node, stack[t].idx - 1, now + 1)
  {
    TrailGrows(m, root, stack, t);
    hide Follow, ChildAt, TrailTo;
  }

  lemma OutCertifies(m: Mem, root: Node, limit: nat, stack: seq<Frame>, cert: Certificate, now: nat)
    requires |stack| > 0 && Certifies(m, root, cert, now) && FrameOk(m, root, cert.rank, limit, stack, |stack| - 1, now)
    requires Top(stack).idx == Top(stack).nchild && Top(stack).node.key !in cert.rank && cert.nesting == limit
    ensures Certifies(m, root, Finished(stack, cert, now), now + 1)
  {
    var done, k := Finished(stack, cert, now), Top(stack).node.key;
    hide Follow, ChildAt, InUniverse, Inside;
    forall x | x in done.rank ensures Entered(m, root, done, x) && done.rank[x] < now + 1 {
      var n, r := done.rep[x], done.rank[x];
      forall i | 0 <= i < Children(n.p) ensures Settled(m, done.rank, n, i, r) {
        hide Children;
        if x != k {
          assert Entered(m, root, cert, x);
        }
        assert Settled(m, cert.rank, n, i, r);
      }
    }
  }

  function Finished(stack: seq<Frame>, cert: Certificate, now: nat): Certificate
    requires |stack| > 0 && forall u | 0 <= u < |stack| - 1 :: stack[u].idx > 0
  {
    var n := Top(stack).node;
    Certificate(cert.nesting, cert.rank[n.key := now], cert.rep[n.key := n],
      cert.trail[n.key := TrailTo(stack, |stack| - 1)])
  }

  // ---- what a certificate is worth ----------------------------------------------------------

  /** All that the visited set compares: objects with the same key must lead to the same things. */
  ghost predicate KeysTellChildren(m: Mem, root: Node) {
    forall a, b :: SameChildren(m, Follow(m, root, a), Follow(m, root, b))
  }

  ghost predicate SameChildren(m: Mem, a: SlotValue, b: SlotValue) {
    a.Found? && b.Found? && a.node.key == b.node.key ==> forall i :: ChildAt(m, a.node, i) == ChildAt(m, b.node, i)
  }

  /** They do when their pointers are the same words, whatever else their shapes say. */
  lemma SlotsTell(m: Mem, a: Node, b: Node)
    requires a.p.Obj? && b.p.Obj? && a.p.seg == b.p.seg && Children(a.p) == Children(b.p)
    requires forall i | 0 <= i < Children(a.p) :: ChildSlot(a.p, i) == ChildSlot(b.p, i)
    ensures SameChildren(m, Found(a), Found(b))
  {
    hide ReadNode, Children, ChildSlot;
  }

  /** What holds of the pointers of the object that was visited holds of all objects with its key. */
  lemma NodeSettled(m: Mem, root: Node, cert: Certificate, now: nat, path: seq<nat>, i: nat)
    requires Certifies(m, root, cert, now) && KeysTellChildren(m, root)
    requires var r := Follow(m, root, path); r.Found? && r.node.key in cert.rank
    ensures var n := Follow(m, root, path).node; Settled(m, cert.rank, n, i, cert.rank[n.key])
  {
    var n, k := Follow(m, root, path).node, Follow(m, root, path).node.key;
    assert Entered(m, root, cert, k);
    assert SameChildren(m, Follow(m, root, path), Follow(m, root, cert.trail[k]));
    if i >= Children(cert.rep[k].p) {
      NoChild(m, cert.rep[k], i);
    }
    hide ChildAt, Follow, Settled;
    assert Settled(m, cert.rank, cert.rep[k], i, cert.rank[k]);
    SettledAlike(m, cert.rank, n, cert.rep[k], i, cert.rank[k]);
  }

  lemma NoChild(m: Mem, n: Node, i: nat)
    requires i >= Children(n.p)
    ensures ChildAt(m, n, i) == Zero
  {
  }

  lemma SettledAlike(m: Mem, rank: map<Key, nat>, n: Node, n': Node, i: nat, r: nat)
    requires ChildAt(m, n, i) == ChildAt(m, n', i) && Settled(m, rank, n', i, r)
    ensures Settled(m, rank, n, i, r)
  {
  }

  /** On an accepted graph every pointer along every path is null or can be read, and ranks fall along the path. */
  lemma {:induction false} AcceptedPath(m: Mem, root: Node, cert: Certificate, now: nat, path: seq<nat>)
    requires Certifies(m, root, cert, now) && root.key in cert.rank && KeysTellChildren(m, root)
    ensures var r := Follow(m, root, path);
      r == Zero || (r.Found? && r.node.key in cert.rank && cert.rank[r.node.key] + |path| <= cert.rank[root.key])
    decreases path
  {
    if path != [] {
      var front, i := path[..|path| - 1], path[|path| - 1];
      AcceptedPath(m, root, cert, now, front);
      var r := Follow(m, root, front);
      if r.Found? {
        NodeSettled(m, root, cert, now, front, i);
      }
      hide Certifies, KeysTellChildren, ReadNode, Children;
    }
  }

  /** No path of pointers comes back to an object it has passed: the graph behind the root has no cycle. */
  lemma AcceptedAcyclic(m: Mem, root: Node, cert: Certificate, now: nat, path: seq<nat>, t: nat)
    requires Certifies(m, root, cert, now) && root.key in cert.rank && KeysTellChildren(m, root)
    requires t < |path| && Follow(m, root, path).Found?
    ensures Follow(m, root, path[..t]).Found? && Follow(m, root, path).node.key != Follow(m, root, path[..t]).node.key
    ensures |path| <= cert.rank[root.key]
  {
    hide Certifies, KeysTellChildren, Follow;
    RanksFall(m, root, cert, now, path, t);
    AcceptedPath(m, root, cert, now, path);
  }

  lemma {:induction false} RanksFall(m: Mem, root: Node, cert: Certificate, now: nat, path: seq<nat>, t: nat)
    requires Certifies(m, root, cert, now) && root.key in cert.rank && KeysTellChildren(m, root)
    requires t <= |path| && Follow(m, root, path).Found?
    ensures Follow(m, root, path[..t]).Found?
    ensures var a, b := Follow(m, root, path[..t]).node.key, Follow(m, root, path).node.key;
      a in cert.rank && b in cert.rank && cert.rank[b] + (|path| - t) <= cert.rank[a]
    decreases path
  {
    hide Certifies, KeysTellChildren, ReadNode, Children, ChildAt;
    AcceptedPath(m, root, cert, now, path);
    if t == |path| {
      assert path[..t] == path;
    } else {
      var front, i := path[..|path| - 1], path[|path| - 1];
      RanksFall(m, root, cert, now, front, t);
      assert front[..t] == path[..t];
      StepFalls(m, root, cert, now, front, i);
    }
  }

  lemma StepFalls(m: Mem, root: Node, cert: Certificate, now: nat, front: seq<nat>, i: nat)
    requires Certifies(m, root, cert, now) && root.key in cert.rank && KeysTellChildren(m, root)
    requires Follow(m, root, front).Found? && ChildAt(m, Follow(m, root, front).node, i).Found?
    ensures var n := Follow(m, root, front).node;
      var c := ChildAt(m, n, i).node;
      n.key in cert.rank && c.key in cert.rank && cert.rank[c.key] < cert.rank[n.key]
  {
    hide Certifies, KeysTellChildren, ReadNode, Children, Follow;
    AcceptedPath(m, root, cert, now, front);
    NodeSettled(m, root, cert, now, front, i);
  }

  // ---- the same walk as a recursion ---------------------------------------------------------

  /** Every object is reached by paths of one length only. */
  ghost predicate OneLevel(m: Mem, root: Node) {
    forall a, b :: SameLevel(Follow(m, root, a), |a|, Follow(m, root, b), |b|)
  }

  predicate SameLevel(a: SlotValue, n: nat, b: SlotValue, n': nat) {
    a.Found? && b.Found? && a.node.key == b.node.key ==> n == n'
  }

  /** Where sharing does not skip levels, no object of an accepted graph lies deeper than the nesting limit. */
  lemma AcceptedNesting(m: Mem, root: Node, cert: Certificate, now: nat, path: seq<nat>)
    requires Certifies(m, root, cert, now) && root.key in cert.rank && KeysTellChildren(m, root) && OneLevel(m, root)
    ensures Follow(m, root, path).Found? ==> |path| < cert.nesting
  {
    AcceptedPath(m, root, cert, now, path);
    var r := Follow(m, root, path);
    if r.Found? {
      assert Entered(m, root, cert, r.node.key);
      hide Follow, Settled, KeysTellChildren, Certifies;
      assert SameLevel(r, |path|, Follow(m, root, cert.trail[r.node.key]), |cert.trail[r.node.key]|);
    }
  }

  /** The marks of the visited set and the bytes charged. */
  datatype State = State(marks: map<Key, Mark>, used: nat)

  datatype Visited = Refusal | Passed(st: State)

  /** A pointer that can be read but not paid for. */
  ghost predicate Unpaid(r: SlotValue, used: nat, limit: nat) {
    r.Found? && Cost(r.node.p) > 0 && used + Cost(r.node.p) > limit
  }

  /** Depth-first search from a node that is new: on the path while its pointers are followed, done afterwards. */
  ghost function Visit(m: Mem, n: Node, depth: nat, st: State, limit: nat): (r: Visited)
    decreases depth, 1, 0
  {
    var r := Follows(m, n, 0, depth, st.(marks := st.marks[n.key := Path]), limit);
    if r.Passed? then Passed(Left(r.st, n.key)) else Refusal
  }

  function Left(st: State, k: Key): State { st.(marks := st.marks[k := Done]) }

  /** The pointers of a node from number i on. */
  ghost function Follows(m: Mem, n: Node, i: nat, depth: nat, st: State, limit: nat): (r: Visited)
    decreases depth, 0, if i < Children(n.p) then Children(n.p) - i else 0
  {
    if i >= Children(n.p) then Passed(st)
    else
      var r := FollowOne(m, n, i, depth, st, limit);
      if r.Passed? then Follows(m, n, i + 1, depth, r.st, limit) else Refusal
  }

  /** Pointer i of a node: skipped when null or done, refused when bad or on the path, and otherwise visited. */
  ghost function FollowOne(m: Mem, n: Node, i: nat, depth: nat, st: State, limit: nat): (r: Visited)
    requires i < Children(n.p)
    decreases depth, 0, 0
  {
    var c := ChildAt(m, n, i);
    if c == Zero then Passed(st)
    else if c == Unreadable || depth == 0 || Unpaid(c, st.used, limit) then Refusal
    else
      var next := st.(used := st.used + Cost(c.node.p));
      if c.node.key !in st.marks then Visit(m, c.node, depth - 1, next, limit)
      else if st.marks[c.node.key] == Path then Refusal
      else Passed(next)
  }

  /** What is still to come when the explicit stack stands for the recursion. */
  ghost function Resume(m: Mem, stack: seq<Frame>, st: State, limit: nat): (r: Visited)
    decreases |stack|
  {
    if stack == [] then Passed(st)
    else
      var f := Top(stack);
      var r := Follows(m, f.node, f.idx, f.nesting, st, limit);
      if r.Passed? then Resume(m, stack[..|stack| - 1], Left(r.st, f.node.key), limit) else Refusal
  }

  lemma ResumeStarts(m: Mem, f: Frame, used: nat, limit: nat)
    requires f.idx == 0
    ensures Visit(m, f.node, f.nesting, State(map[], used), limit)
      == Resume(m, [f], State(map[][f.node.key := Path], used), limit)
  {
    var r := Follows(m, f.node, 0, f.nesting, State(map[][f.node.key := Path], used), limit);
    assert [f][..0] == [];
    if r.Passed? {
      assert Resume(m, [], Left(r.st, f.node.key), limit) == Passed(Left(r.st, f.node.key));
    }
    hide Follows;
  }

  lemma ResumeEnds(m: Mem, st: State, limit: nat)
    ensures Resume(m, [], st, limit) == Passed(st)
  {
  }

  /** The stack's top frame is done. */
  lemma ResumeOut(m: Mem, stack: seq<Frame>, st: State, limit: nat)
    requires stack != [] && Top(stack).idx >= Children(Top(stack).node.p)
    ensures Resume(m, stack, st, limit) == Resume(m, stack[..|stack| - 1], Left(st, Top(stack).node.key), limit)
  {
    hide Children, FollowOne;
  }

  /** Its next pointer is skipped. */
  lemma ResumeOver(m: Mem, stack: seq<Frame>, st: State, limit: nat)
    requires stack != [] && Top(stack).idx < Children(Top(stack).node.p)
    ensures var r := FollowOne(m, Top(stack).node, Top(stack).idx, Top(stack).nesting, st, limit);
      Resume(m, stack, st, limit) == if r.Passed? then Resume(m, Stepped(stack), r.st, limit) else Refusal
  {
    hide Children, FollowOne;
    assert Stepped(stack)[..|stack| - 1] == stack[..|stack| - 1];
  }

  /** Its next pointer is visited. */
  lemma ResumeInto(m: Mem, stack: seq<Frame>, st: State, limit: nat, f: Frame, next: State)
    requires stack != [] && f.idx == 0
    ensures var r := Visit(m, f.node, f.nesting, next, limit);
      Resume(m, Stepped(stack) + [f], next.(marks := next.marks[f.node.key := Path]), limit)
      == if r.Passed? then Resume(m, Stepped(stack), r.st, limit) else Refusal
  {
    hide Follows;
    assert (Stepped(stack) + [f])[..|stack|] == Stepped(stack);
  }

  // ---- the walk itself ----------------------------------------------------------------------

  /** ptr_word_null, read_ptr and the key of what was read. */
  method LoadNode(c: Capn, s: nat, d: nat, rem: nat) returns (r: SlotValue)
    requires c.Valid() && s < |c.segs| && d < c.segs[s].len
    modifies c`traversalUsed, c`decodeErr
    ensures var n := ReadNode(c.Mem(), s, d);
      if n != Zero && (rem == 0 || Unpaid(n, old(c.traversalUsed), c.traversalLimit)) then r == Unreadable else r == n
    ensures c.traversalUsed == old(c.traversalUsed) + if r.Found? then Cost(r.node.p) else 0
  {
    hide ReadSlot, Bytes, MemOf, Inside, InUniverse;
    var w := c.Fetch(s, d);
    if w == 0 {
      return Zero;
    }
    var p := c.ReadPtr(s, d, rem);
    if p == Null {
      return Unreadable;
    }
    var at := Decode(w);
    var key := if p.Obj? then KeyOf(p)
      else if at.FarPtr? then Key(at.seg, at.pos, INTERFACE, false)
      else Key(s, d, INTERFACE, false);
    r := Found(Node(p, key));
  }

  /**
   Why a graph is refused: at the end of the trail there is a pointer that cannot be read, one that lies
   deeper than the nesting limit, one that cannot be paid for any more, or an object that is on the trail.
   */
  ghost predicate Refused(m: Mem, root: Node, trail: seq<nat>, nesting: nat, spent: nat, limit: nat) {
    var r := Follow(m, root, trail);
    && trail != [] && r != Zero
    && (r == Unreadable || |trail| >= nesting || Unpaid(r, spent, limit) || Repeats(m, root, trail))
  }

  /** The end of the trail has the key of something before it. */
  ghost predicate Repeats(m: Mem, root: Node, trail: seq<nat>) {
    var r := Follow(m, root, trail);
    r.Found? && exists t | 0 <= t < |trail| ::
      var a := Follow(m, root, trail[..t]);
      a.Found? && a.node.key == r.node.key
  }

  ghost function Longest(m: Mem): (n: nat)
    ensures forall i | 0 <= i < |m| :: |m[i]| <= n
  {
    if m == [] then 0
    else
      var n := Longest(m[..|m| - 1]);
      assert forall i | 0 <= i < |m| - 1 :: m[i] == m[..|m| - 1][i];
      if n < |m[|m| - 1]| then |m[|m| - 1]| else n
  }

  /** All the keys there can be. */
  ghost function Universe(m: Mem): set<Key> {
    set s: nat, d: nat, k: nat, b: bool | s < |m| && d <= Longest(m) && k <= INTERFACE :: Key(s, d, k, b)
  }

  ghost function Unvisited(m: Mem, marks: map<Key, Mark>): nat { |Universe(m) - marks.Keys| }

  lemma VisitedSame(m: Mem, marks: map<Key, Mark>, k: Key)
    requires k in marks
    ensures Unvisited(m, marks[k := Done]) == Unvisited(m, marks)
  {
    assert marks[k := Done].Keys == marks.Keys;
  }

  lemma VisitedLess(m: Mem, marks: map<Key, Mark>, k: Key)
    requires InUniverse(m, k) && k !in marks
    ensures Unvisited(m, marks[k := Path]) < Unvisited(m, marks)
  {
    var a, b := Universe(m) - marks.Keys, Universe(m) - marks[k := Path].Keys;
    assert k in a && k !in b && b <= a;
    assert b + {k} <= a;
    FewerElements(b + {k}, a);
  }

  lemma {:induction false} FewerElements(a: set<Key>, b: set<Key>)
    requires a <= b
    ensures |a| <= |b|
  {
    if a != {} {
      var x :| x in a;
      FewerElements(a - {x}, b - {x});
    }
  }

  /** What is left to do on the stack. */
  function Work(stack: seq<Frame>): nat {
    if stack == [] then 0
    else
      var f := Top(stack);
      Work(stack[..|stack| - 1]) + 1 + if f.idx < f.nchild then f.nchild - f.idx else 0
  }

  lemma WorkFalls(stack: seq<Frame>)
    requires |stack| > 0
    ensures Work(stack[..|stack| - 1]) < Work(stack)
    ensures Top(stack).idx < Top(stack).nchild ==> Work(Stepped(stack)) < Work(stack)
  {
    if Top(stack).idx < Top(stack).nchild {
      assert Stepped(stack)[..|stack| - 1] == stack[..|stack| - 1];
    }
  }

  lemma WalkStarts(m: Mem, root: Node, limit: nat)
    requires limit > 0 && Inside(m, root.p) && InUniverse(m, root.key)
    ensures Walking(m, root, limit, [Frame(root, 0, Children(root.p), limit - 1)], map[][root.key := Path],
      Certificate(limit, map[], map[], map[]), 0)
  {
    var stack := [Frame(root, 0, Children(root.p), limit - 1)];
    assert Keys(stack) == [root.key];
    assert TrailTo(stack, 0) == [];
    hide Children, Inside, InUniverse;
  }

  /** The next pointer of the top frame, as the end of a trail from the root. */
  lemma TopTrail(m: Mem, root: Node, limit: nat, stack: seq<Frame>, marks: map<Key, Mark>, cert: Certificate, now: nat)
      returns (trail: seq<nat>)
    requires Walking(m, root, limit, stack, marks, cert, now) && |stack| > 0 && Top(stack).idx < Top(stack).nchild
    ensures trail != [] && |trail| == |stack| && Follow(m, root, trail) == ChildAt(m, Top(stack).node, Top(stack).idx)
    ensures |stack| + Top(stack).nesting == limit
    ensures Follow(m, root, trail).Found? && Follow(m, root, trail).node.key in Keys(stack) ==> Repeats(m, root, trail)
  {
    var t := |stack| - 1;
    assert FrameOk(m, root, cert.rank, limit, stack, t, now);
    trail := TrailTo(stack, t) + [Top(stack).idx];
    assert trail[..t] == TrailTo(stack, t);
    hide ChildAt, Certifies, Marked, Settled, Inside, InUniverse;
    if Follow(m, root, trail).Found? && Follow(m, root, trail).node.key in Keys(stack) {
      var u :| 0 <= u < |stack| && Keys(stack)[u] == Follow(m, root, trail).node.key;
      assert FrameOk(m, root, cert.rank, limit, stack, u, now);
      assert trail[..u] == TrailTo(stack, u);
      assert Follow(m, root, trail[..u]) == Found(stack[u].node);
    }
  }

  /** The loop of capn_validate. The test on the size of the stack that the source has there never fires. */
  method WalkGraph(c: Capn, root: Node) returns (ok: bool, ghost cert: Certificate, ghost now: nat,
      ghost trail: seq<nat>)
    requires c.Valid() && c.nestingLimit > 0 && Inside(c.Mem(), root.p) && InUniverse(c.Mem(), root.key)
    modifies c`traversalUsed, c`decodeErr
    ensures ok <==> Visit(c.Mem(), root, c.nestingLimit - 1, State(map[], old(c.traversalUsed)),
      c.traversalLimit).Passed?
    ensures ok ==> Certifies(c.Mem(), root, cert, now) && root.key in cert.rank && cert.nesting == c.nestingLimit
    ensures !ok ==> Refused(c.Mem(), root, trail, c.nestingLimit, c.traversalUsed, c.traversalLimit)
  {
    hide Resume, Visit, Follows;
    hide MemOf, VSet.Valid, VSet.Map, Walking, ChildAt, Follow, Certifies, Cost, Inside, InUniverse, Universe, Children;
    hide Work, Settled, ReadSlot, ReadNode, Unvisited;
    ghost var m, limit := c.Mem(), c.nestingLimit;
    cert, now, trail := Certificate(limit, map[], map[], map[]), 0, [];
    ghost var goal := Visit(m, root, limit - 1, State(map[], c.traversalUsed), c.traversalLimit);
    var vs, stack := StartWalk(root, c.nestingLimit, m, c.traversalUsed, c.traversalLimit);
    while stack != []
      invariant c.Valid() && c.Mem() == m && vs.Valid() && fresh(vs) && fresh(vs.tab)
      invariant Walking(m, root, limit, stack, vs.Map(), cert, now)
      invariant Resume(m, stack, State(vs.Map(), c.traversalUsed), c.traversalLimit) == goal
      decreases Unvisited(m, vs.Map()), Work(stack)
    {
      if Top(stack).idx >= Top(stack).nchild {
        cert, now := Finish(c, root, vs, stack, cert, now, goal);
        WorkFalls(stack);
        stack := stack[..|stack| - 1];
      } else {
        ok, stack, trail := Advance(c, root, vs, stack, cert, now, goal);
        if !ok {
          return;
        }
      }
    }
    WalkEnds(m, root, limit, vs.Map(), cert, now);
    ResumeEnds(m, State(vs.Map(), c.traversalUsed), c.traversalLimit);
    ok := true;
  }

  /** vset_init and the first frame. */
  method StartWalk(root: Node, limit: nat, ghost m: Mem, ghost used: nat, ghost most: nat) returns (vs: VSet<Key>,
      stack: seq<Frame>)
    requires limit > 0 && Inside(m, root.p) && InUniverse(m, root.key)
    ensures fresh(vs) && fresh(vs.tab) && vs.Valid()
    ensures Walking(m, root, limit, stack, vs.Map(), Certificate(limit, map[], map[], map[]), 0)
    ensures stack != [] && Resume(m, stack, State(vs.Map(), used), most) == Visit(m, root, limit - 1,
      State(map[], used), most)
  {
    hide VSet.Valid, VSet.Map, Walking, Inside, InUniverse, Children, Resume, Visit;
    var hash: Key -> nat := *;
    vs := new VSet<Key>(hash);
    var _ := vs.Enter(root.key);
    stack := [Frame(root, 0, Children(root.p), limit - 1)];
    WalkStarts(m, root, limit);
    ResumeStarts(m, stack[0], used, most);
  }

  lemma WalkEnds(m: Mem, root: Node, limit: nat, marks: map<Key, Mark>, cert: Certificate, now: nat)
    requires Walking(m, root, limit, [], marks, cert, now)
    ensures Certifies(m, root, cert, now) && root.key in cert.rank && cert.nesting == limit
  {
  }

  /** What the loop needs to know about the top frame. */
  lemma TopFrame(m: Mem, root: Node, limit: nat, stack: seq<Frame>, marks: map<Key, Mark>, cert: Certificate, now: nat)
    requires Walking(m, root, limit, stack, marks, cert, now) && |stack| > 0
    ensures var f := Top(stack);
      && f.nchild == Children(f.node.p) && f.idx <= f.nchild && Inside(m, f.node.p) && f.node.key in marks
      && f.nesting + |stack| == limit
  {
    assert FrameOk(m, root, cert.rank, limit, stack, |stack| - 1, now);
    assert Keys(stack)[|stack| - 1] == Top(stack).node.key;
    hide Follow, Certifies, Children, Inside;
  }

  /** One turn of the loop that takes the top frame away. */
  method Finish(c: Capn, root: Node, vs: VSet<Key>, stack: seq<Frame>, ghost cert: Certificate, ghost now: nat,
      ghost goal: Visited)
      returns (ghost cert': Certificate, ghost now': nat)
    requires c.Valid() && vs.Valid() && stack != [] && Top(stack).idx >= Top(stack).nchild
    requires Walking(c.Mem(), root, c.nestingLimit, stack, vs.Map(), cert, now)
    requires Resume(c.Mem(), stack, State(vs.Map(), c.traversalUsed), c.traversalLimit) == goal
    modifies vs, vs.tab
    ensures Resume(c.Mem(), stack[..|stack| - 1], State(vs.Map(), c.traversalUsed), c.traversalLimit) == goal
    ensures vs.Valid() && (vs.tab == old(vs.tab) || fresh(vs.tab))
    ensures Walking(c.Mem(), root, c.nestingLimit, stack[..|stack| - 1], vs.Map(), cert', now')
    ensures Unvisited(c.Mem(), vs.Map()) == Unvisited(c.Mem(), old(vs.Map()))
  {
    hide MemOf, VSet.Valid, VSet.Map, Walking, Follow, Certifies, Inside, InUniverse, Children, Unvisited, Resume;
    ghost var m, limit := c.Mem(), c.nestingLimit;
    TopFrame(m, root, limit, stack, vs.Map(), cert, now);
    ResumeOut(m, stack, State(vs.Map(), c.traversalUsed), c.traversalLimit);
    StepOut(m, root, limit, stack, vs.Map(), cert, now);
    VisitedSame(m, vs.Map(), Top(stack).node.key);
    vs.Leave(Top(stack).node.key);
    cert', now' := Finished(stack, cert, now), now + 1;
  }

  /** One turn of the loop that takes the next pointer of the top frame. */
  method Advance(c: Capn, root: Node, vs: VSet<Key>, stack: seq<Frame>, ghost cert: Certificate, ghost now: nat,
      ghost goal: Visited)
      returns (ok: bool, next: seq<Frame>, ghost trail: seq<nat>)
    requires c.Valid() && vs.Valid() && stack != [] && Top(stack).idx < Top(stack).nchild
    requires Walking(c.Mem(), root, c.nestingLimit, stack, vs.Map(), cert, now)
    requires Resume(c.Mem(), stack, State(vs.Map(), c.traversalUsed), c.traversalLimit) == goal
    modifies c`traversalUsed, c`decodeErr, vs, vs.tab
    ensures if ok then Resume(c.Mem(), next, State(vs.Map(), c.traversalUsed),
      c.traversalLimit) == goal else goal == Refusal
    ensures vs.Valid() && (vs.tab == old(vs.tab) || fresh(vs.tab))
    ensures ok ==> Walking(c.Mem(), root, c.nestingLimit, next, vs.Map(), cert, now)
    ensures ok ==> (vs.Map() == old(vs.Map()) && Work(next) < Work(stack))
                   || Unvisited(c.Mem(), vs.Map()) < Unvisited(c.Mem(), old(vs.Map()))
    ensures !ok ==> Refused(c.Mem(), root, trail, c.nestingLimit, c.traversalUsed, c.traversalLimit)
  {
    hide MemOf, VSet.Valid, VSet.Map, Walking, ChildAt, Follow, Certifies, Cost, Inside, InUniverse, Universe, Children;
    hide Work, Settled, ReadSlot, ReadNode, Repeats, Unvisited, Resume, Visit, Follows;
    ghost var m, limit, marks := c.Mem(), c.nestingLimit, vs.Map();
    ghost var st := State(marks, c.traversalUsed);
    var f := Top(stack);
    TopFrame(m, root, limit, stack, marks, cert, now);
    ChildIs(m, f.node, f.idx);
    ResumeOver(m, stack, st, c.traversalLimit);
    trail := TopTrail(m, root, limit, stack, marks, cert, now);
    WorkFalls(stack);
    next := Stepped(stack);
    var r := LoadNode(c, f.node.p.seg, ChildSlot(f.node.p, f.idx), f.nesting);
    if r == Unreadable {
      return false, next, trail;
    }
    ok := true;
    if r == Zero {
      ZeroSettled(m, cert.rank, f.node, f.idx, now);
      StepOver(m, root, limit, stack, marks, cert, now);
      return;
    }
    var e := vs.Enter(r.node.key);
    KnownOrOnStack(m, root, limit, stack, marks, cert, now, r.node);
    if e == Cycle {
      return false, next, trail;
    }
    if e == VisitedSet.Entry.Known {
      StepOver(m, root, limit, stack, marks, cert, now);
      return;
    }
    var frame := Frame(r.node, 0, Children(r.node.p), f.nesting - 1);
    StepInto(m, root, limit, stack, marks, cert, now, frame);
    ResumeInto(m, stack, st, c.traversalLimit, frame, State(marks, c.traversalUsed));
    VisitedLess(m, marks, r.node.key);
    next := next + [frame];
  }

  lemma ChildIs(m: Mem, n: Node, i: nat)
    requires Inside(m, n.p) && i < Children(n.p)
    ensures n.p.Obj? && n.p.seg < |m| && ChildSlot(n.p, i) < |m[n.p.seg]|
      && ChildAt(m, n, i) == ReadNode(m, n.p.seg, ChildSlot(n.p, i))
  {
    ChildSlotInside(m, n.p, i);
  }

  lemma ZeroSettled(m: Mem, rank: map<Key, nat>, n: Node, i: nat, now: nat)
    requires ChildAt(m, n, i) == Zero
    ensures Settled(m, rank, n, i, now)
  {
  }

  /** A marked object is on the stack or finished. */
  lemma KnownOrOnStack(m: Mem, root: Node, limit: nat, stack: seq<Frame>, marks: map<Key, Mark>, cert: Certificate,
      now: nat, n: Node)
    requires Walking(m, root, limit, stack, marks, cert, now) && |stack| > 0
      && ChildAt(m, Top(stack).node, Top(stack).idx) == Found(n)
    ensures n.key in marks && marks[n.key] == Path ==> n.key in Keys(stack)
    ensures n.key in marks && marks[n.key] == Done ==> Settled(m, cert.rank, Top(stack).node, Top(stack).idx, now)
    ensures Inside(m, n.p) && InUniverse(m, n.key)
  {
    hide ChildAt, Follow, Entered, FramesOk, Inside, InUniverse;
  }

  // ---- capn_validate ------------------------------------------------------------------------

  /** What is known about an accepted message: it has no root, or its graph is certified. */
  ghost predicate Accepted(m: Mem, cert: Certificate, now: nat) {
    m == [] || m[0] == [] ||
    var r := ReadNode(m, 0, 0);
    r == Zero || (r.Found? && Certifies(m, r.node, cert, now) && r.node.key in cert.rank)
  }

  /** What is known about a refused one: the root or something behind it is at fault. */
  ghost predicate Rejected(m: Mem, trail: seq<nat>, nesting: nat, spent: nat, limit: nat) {
    m != [] &&
    var r := ReadNode(m, 0, 0);
    r == Unreadable || Unpaid(r, spent, limit) || (r.Found? && Refused(m, r.node, trail, nesting, spent, limit))
  }

  /** What capn_validate computes: no root, or a depth-first search from it that gets through. */
  ghost predicate Passes(m: Mem, nest: nat, used: nat, limit: nat)
    requires nest > 0
  {
    m == [] || m[0] == [] ||
    var r := ReadNode(m, 0, 0);
    r == Zero ||
    (r.Found? && !Unpaid(r, used, limit) && Visit(m, r.node, nest - 1, State(map[], used + Cost(r.node.p)),
      limit).Passed?)
  }

  /**
   capn_validate. It ends on every message and takes its charges back; an accepted message comes with a
   certificate, a refused one with a trail to what is wrong with it and with what was spent by then.
   */
  method Run(c: Capn) returns (ok: bool, ghost cert: Certificate, ghost now: nat, ghost trail: seq<nat>,
      ghost spent: nat)
    requires Session(c) && c.nestingLimit > 0
    modifies c`traversalUsed, c`decodeErr, c`segs, c.segs
    ensures Session(c) && c.traversalUsed == old(c.traversalUsed)
    ensures old(c.segs) != [] ==> c.segs == old(c.segs) && RootGrown(old(c.Mem()), c.Mem())
    ensures ok <==> Passes(c.Mem(), c.nestingLimit, c.traversalUsed, c.traversalLimit)
    ensures ok ==> Accepted(c.Mem(), cert, now) && cert.nesting == c.nestingLimit
    ensures !ok ==> Rejected(c.Mem(), trail, c.nestingLimit, spent, c.traversalLimit)
  {
    hide MemOf, Accepted, Rejected, RootGrown, Passes;
    ok, cert, now, trail, spent := true, Certificate(c.nestingLimit, map[], map[], map[]), 0, [], 0;
    var rooted := RootOrNew(c);
    if rooted {
      ok, cert, now, trail, spent := Judge(c);
    } else {
      Rootless(c.Mem(), cert, now, c.nestingLimit, c.traversalUsed, c.traversalLimit);
    }
  }

  lemma Rootless(m: Mem, cert: Certificate, now: nat, nest: nat, used: nat, limit: nat)
    requires nest > 0 && (m == [] || m[0] == [])
    ensures Accepted(m, cert, now) && Passes(m, nest, used, limit)
  {
  }

  /** The message has a root slot: read it and walk the graph behind it. */
  method Judge(c: Capn) returns (ok: bool, ghost cert: Certificate, ghost now: nat, ghost trail: seq<nat>,
      ghost spent: nat)
    requires c.Valid() && c.nestingLimit > 0 && c.segs != [] && c.segs[0].len > 0
    modifies c`traversalUsed, c`decodeErr
    ensures c.traversalUsed == old(c.traversalUsed)
    ensures ok <==> Passes(c.Mem(), c.nestingLimit, c.traversalUsed, c.traversalLimit)
    ensures ok ==> Accepted(c.Mem(), cert, now) && cert.nesting == c.nestingLimit
    ensures !ok ==> Rejected(c.Mem(), trail, c.nestingLimit, spent, c.traversalLimit)
  {
    hide MemOf, ReadNode, Certifies, Refused, Unpaid, Inside, InUniverse, Visit, Cost;
    cert, now, trail, spent := Certificate(c.nestingLimit, map[], map[], map[]), 0, [], c.traversalUsed;
    var saved := c.traversalUsed;
    var r := LoadNode(c, 0, 0, c.nestingLimit);
    if r == Zero {
      return true, cert, now, trail, spent;
    }
    if r == Unreadable {
      return false, cert, now, trail, spent;
    }
    ReadsInside(c.Mem());
    ok, cert, now, trail := WalkGraph(c, r.node);
    spent := c.traversalUsed;
    c.traversalUsed := saved;
  }

  lemma ReadsInside(m: Mem)
    requires m != [] && ReadNode(m, 0, 0).Found?
    ensures var n := ReadNode(m, 0, 0).node; Inside(m, n.p) && InUniverse(m, n.key)
  {
  }

  /** capn_root: on a message without segments it asks for one. */
  method RootOrNew(c: Capn) returns (ok: bool)
    requires Session(c)
    modifies c`segs, c.segs
    ensures Session(c)
    ensures old(c.segs) != [] ==> c.segs == old(c.segs) && RootGrown(old(c.Mem()), c.Mem())
    ensures if ok then c.segs != [] && c.segs[0].len > 0 else c.segs == [] || c.Mem()[0] == []
  {
    hide MemOf, RootGrown;
    if c.segs == [] {
      ok := Create(c, 1);
      if ok {
        Grow(c, 0, 1);
      }
    } else {
      ok := Root(c);
    }
  }

  // ---- without the hypothesis ---------------------------------------------------------------

  /**
   Why KeysTellChildren is needed: a struct with two pointers to one address, once as a word of data and
   once as a pointer that nobody can read. The walk visits the address once and accepts the message.
   */
  lemma ShapesMatter(w: seq<word>, root: Node, first: Node, second: Node, path: seq<nat>,
                     nest: nat, used: nat, limit: nat)
    requires |w| == 4 && w[0] == Encode(StructPtr(0, 0, 2)) && w[1] == Encode(StructPtr(1, 1, 0))
    requires w[2] == Encode(StructPtr(0, 0, 1)) && w[3] == Encode(OtherPtr(1, 0))
    requires root.p == Obj(0, 1, Struct(0, 2), false) && root.key == KeyOf(root.p)
    requires first.p == Obj(0, 3, Struct(1, 0), false) && first.key == KeyOf(first.p)
    requires second.p == Obj(0, 3, Struct(0, 1), false) && second.key == KeyOf(second.p)
    requires path == [1, 0] && nest > 1 && used + 32 <= limit
    ensures Passes([w], nest, used, limit)
    ensures ReadNode([w], 0, 0) == Found(root) && Follow([w], root, path) == Unreadable
    ensures first.key == second.key && !KeysTellChildren([w], root)
  {
    hide ReadNode, ChildAt, Visit, Children, Cost, Follow, Passes, KeysTellChildren, Encode, Inside;
    var i: nat := 0;
    ThreeReads(w);
    ThreeChildren(w, root, first, second, i);
    ThreeCosts(root, first, second);
    ThreePaths([w], root, first, second, i);
    assert path == [i + 1, i];
    ThreeVisit([w], root, first, second, i, nest - 1, used + 16, limit);
    PassesIf([w], root, nest, used, limit);
  }

  lemma ThreeCosts(root: Node, first: Node, second: Node)
    requires root.p == Obj(0, 1, Struct(0, 2), false) && root.key == KeyOf(root.p)
    requires first.p == Obj(0, 3, Struct(1, 0), false) && first.key == KeyOf(first.p)
    requires second.p == Obj(0, 3, Struct(0, 1), false)
    ensures Children(root.p) == 2 && Children(first.p) == 0 && root.key != first.key
    ensures Cost(root.p) == 16 && Cost(first.p) == 8 && Cost(second.p) == 8
  {
  }

  lemma PassesIf(m: Mem, n: Node, nest: nat, used: nat, limit: nat)
    requires nest > 0 && m != [] && m[0] != [] && ReadNode(m, 0, 0) == Found(n) && used + Cost(n.p) <= limit
    requires Visit(m, n, nest - 1, State(map[], used + Cost(n.p)), limit).Passed?
    ensures Passes(m, nest, used, limit)
  {
    hide ReadNode, Visit, Cost;
  }

  lemma ThreeChildren(w: seq<word>, root: Node, first: Node, second: Node, i: nat)
    requires |w| == 4 && w[0] != 0 && w[1] != 0 && w[2] != 0 && w[3] != 0
    requires ReadSlot([w], 0, 0) == Got(root.p) && ReadSlot([w], 0, 1) == Got(first.p)
    requires ReadSlot([w], 0, 2) == Got(second.p) && ReadSlot([w], 0, 3) == Broken
    requires root.p == Obj(0, 1, Struct(0, 2), false) && root.key == KeyOf(root.p)
    requires first.p == Obj(0, 3, Struct(1, 0), false) && first.key == KeyOf(first.p)
    requires second.p == Obj(0, 3, Struct(0, 1), false) && second.key == first.key
    requires i == 0
    ensures ChildAt([w], root, i) == Found(first) && ChildAt([w], root, i + 1) == Found(second)
      && ChildAt([w], second, i) == Unreadable
    ensures ReadNode([w], 0, 0) == Found(root)
  {
    hide ReadSlot, Inside, InUniverse;
  }

  lemma ThreePaths(m: Mem, root: Node, first: Node, second: Node, i: nat)
    requires i == 0 && ChildAt(m, root, i) == Found(first) && ChildAt(m, root, i + 1) == Found(second)
    requires ChildAt(m, second, i) == Unreadable
    requires first.key == second.key && Children(first.p) == 0
    ensures Follow(m, root, [i + 1, i]) == Unreadable && !KeysTellChildren(m, root)
  {
    hide ChildAt, Children;
    var a, b, c := [i], [i + 1], [i + 1, i];
    assert a[..0] == [] && b[..0] == [] && c[..1] == b;
    assert Follow(m, root, a) == Found(first) && Follow(m, root, b) == Found(second);
    NoChild(m, first, i);
    assert ChildAt(m, first, i) != ChildAt(m, second, i);
    assert !SameChildren(m, Follow(m, root, a), Follow(m, root, b));
  }

  lemma ThreeVisit(m: Mem, root: Node, first: Node, second: Node, i: nat, depth: nat, used: nat, limit: nat)
    requires i == 0 && depth > 0 && Children(root.p) == i + 2 && Children(first.p) == 0 && root.key != first.key
    requires ChildAt(m, root, i) == Found(first) && ChildAt(m, root, i + 1) == Found(second) && second.key == first.key
    requires used + Cost(first.p) + Cost(second.p) <= limit
    ensures Visit(m, root, depth, State(map[], used), limit).Passed?
  {
    hide ChildAt, Children, Cost;
    var st := State(map[][root.key := Path], used);
    var st1 := State(st.marks[first.key := Path][first.key := Done], used + Cost(first.p));
    assert Visit(m, first, depth - 1, State(st.marks, used + Cost(first.p)), limit) == Passed(st1) by {
      assert Follows(m, first, 0, depth - 1, State(st.marks[first.key := Path], used + Cost(first.p)), limit)
        == Passed(State(st.marks[first.key := Path], used + Cost(first.p)));
    }
    hide Visit;
    assert FollowOne(m, root, i, depth, st, limit) == Passed(st1);
    var st2 := State(st1.marks, st1.used + Cost(second.p));
    assert FollowOne(m, root, i + 1, depth, st1, limit) == Passed(st2);
    hide FollowOne;
    assert Follows(m, root, i + 2, depth, st2, limit) == Passed(st2);
    assert Follows(m, root, i + 1, depth, st1, limit) == Passed(st2);
    assert Follows(m, root, i, depth, st, limit) == Passed(st2);
    VisitIs(m, root, depth, State(map[], used), limit);
  }

  lemma VisitIs(m: Mem, n: Node, depth: nat, st: State, limit: nat)
    ensures Follows(m, n, 0, depth, st.(marks := st.marks[n.key := Path]), limit).Passed? ==>
      Visit(m, n, depth, st, limit).Passed?
  {
    hide Follows;
  }

  lemma ThreeReads(w: seq<word>)
    requires |w| == 4 && w[0] == Encode(StructPtr(0, 0, 2)) && w[1] == Encode(StructPtr(1, 1, 0))
      && w[2] == Encode(StructPtr(0, 0, 1)) && w[3] == Encode(OtherPtr(1, 0))
    ensures w[0] != 0 && ReadSlot([w], 0, 0) == Got(Obj(0, 1, Struct(0, 2), false))
    ensures w[1] != 0 && ReadSlot([w], 0, 1) == Got(Obj(0, 3, Struct(1, 0), false))
    ensures w[2] != 0 && ReadSlot([w], 0, 2) == Got(Obj(0, 3, Struct(0, 1), false))
    ensures w[3] != 0 && ReadSlot([w], 0, 3) == Broken
  {
    DecodeEncode(StructPtr(0, 0, 2));
    DecodeEncode(StructPtr(1, 1, 0));
    DecodeEncode(StructPtr(0, 0, 1));
    DecodeEncode(OtherPtr(1, 0));
    assert Decode(0) == StructPtr(0, 0, 0);
    hide Encode, Decode;
  }

  /**
   Why OneLevel is needed: a struct with two pointers, to a struct that leads to a word of data, and to another
   struct that leads to that first one. The walk reaches the data by way of the first pointer, one level higher
   than by way of the second, and accepts the message under a limit of 3 although a path goes to depth 3.
   */
  lemma DepthsMatter(w: seq<word>, a: Node, b: Node, d: Node, e: Node, path: seq<nat>, nest: nat, used: nat, limit: nat)
    requires |w| == 6 && w[0] == Encode(StructPtr(0, 0, 2)) && w[1] == Encode(StructPtr(1, 0, 1))
    requires w[2] == Encode(StructPtr(1, 0, 1)) && w[3] == Encode(StructPtr(1, 1, 0))
    requires w[4] == Encode(StructPtr(-2, 0, 1))
    requires a == StructNode(1, 0, 2) && b == StructNode(3, 0, 1) && d == StructNode(4, 0, 1)
      && e == StructNode(5, 1, 0)
    requires path == [1, 0, 0] && nest == 3 && used + 48 <= limit
    ensures Passes([w], nest, used, limit) && ReadNode([w], 0, 0) == Found(a)
    ensures Follow([w], a, path) == Found(e) && |path| >= nest && !OneLevel([w], a)
  {
    hide ReadNode, ChildAt, Visit, Children, Cost, Follow, Passes, OneLevel, Encode, Inside;
    var i: nat := 0;
    FiveReads(w);
    FiveChildren(w, a, b, d, e, i);
    FivePaths([w], a, b, d, e, i);
    assert path == [i + 1, i, i];
    FiveVisit([w], a, b, d, e, i, nest - 1, used + 16, limit);
    PassesIf([w], a, nest, used, limit);
  }

  /** A struct in segment 0, as it is visited. */
  function StructNode(at: nat, dw: nat, pw: nat): Node { Node(Obj(0, at, Struct(dw, pw), false), Key(0, at, 1, false)) }

  lemma FiveReads(w: seq<word>)
    requires |w| == 6 && w[0] == Encode(StructPtr(0, 0, 2)) && w[1] == Encode(StructPtr(1, 0, 1))
    requires w[2] == Encode(StructPtr(1, 0, 1)) && w[3] == Encode(StructPtr(1, 1, 0))
    requires w[4] == Encode(StructPtr(-2, 0, 1))
    ensures w[0] != 0 && ReadSlot([w], 0, 0) == Got(StructNode(1, 0, 2).p)
    ensures w[1] != 0 && ReadSlot([w], 0, 1) == Got(StructNode(3, 0, 1).p)
    ensures w[2] != 0 && ReadSlot([w], 0, 2) == Got(StructNode(4, 0, 1).p)
    ensures w[3] != 0 && ReadSlot([w], 0, 3) == Got(StructNode(5, 1, 0).p)
    ensures w[4] != 0 && ReadSlot([w], 0, 4) == Got(StructNode(3, 0, 1).p)
  {
    DecodeEncode(StructPtr(0, 0, 2));
    DecodeEncode(StructPtr(1, 0, 1));
    DecodeEncode(StructPtr(1, 1, 0));
    DecodeEncode(StructPtr(-2, 0, 1));
    assert Decode(0) == StructPtr(0, 0, 0);
    hide Encode, Decode;
  }

  lemma FiveChildren(w: seq<word>, a: Node, b: Node, d: Node, e: Node, i: nat)
    requires |w| == 6 && w[0] != 0 && w[1] != 0 && w[2] != 0 && w[3] != 0 && w[4] != 0 && i == 0
    requires a == StructNode(1, 0, 2) && b == StructNode(3, 0, 1) && d == StructNode(4, 0, 1)
      && e == StructNode(5, 1, 0)
    requires ReadSlot([w], 0, 0) == Got(a.p) && ReadSlot([w], 0, 1) == Got(b.p) && ReadSlot([w], 0, 2) == Got(d.p)
    requires ReadSlot([w], 0, 3) == Got(e.p) && ReadSlot([w], 0, 4) == Got(b.p)
    ensures ReadNode([w], 0, 0) == Found(a)
    ensures ChildAt([w], a, i) == Found(b) && ChildAt([w], a, i + 1) == Found(d)
    ensures ChildAt([w], b, i) == Found(e) && ChildAt([w], d, i) == Found(b)
    ensures Children(a.p) == 2 && Children(b.p) == Children(d.p) == 1 && Children(e.p) == 0
    ensures Cost(a.p) == 16 && Cost(b.p) == Cost(d.p) == Cost(e.p) == 8
  {
    hide ReadSlot, Inside, InUniverse;
  }

  lemma FivePaths(m: Mem, a: Node, b: Node, d: Node, e: Node, i: nat)
    requires i == 0 && ChildAt(m, a, i) == Found(b) && ChildAt(m, a, i + 1) == Found(d)
    requires ChildAt(m, b, i) == Found(e) && ChildAt(m, d, i) == Found(b)
    ensures Follow(m, a, [i + 1, i, i]) == Found(e) && !OneLevel(m, a)
  {
    hide ChildAt;
    var high, low := [i], [i + 1, i];
    assert high[..0] == [] && low[..1] == [i + 1] && [i + 1][..0] == [] && [i + 1, i, i][..2] == low;
    assert Follow(m, a, []) == Found(a);
    assert Follow(m, a, high) == Found(b) && Follow(m, a, [i + 1]) == Found(d);
    assert Follow(m, a, low) == Found(b);
    assert !SameLevel(Follow(m, a, high), |high|, Follow(m, a, low), |low|);
  }

  /** A node without pointers. */
  lemma LeafVisit(m: Mem, n: Node, depth: nat, st: State, limit: nat)
    requires Children(n.p) == 0
    ensures Visit(m, n, depth, st, limit) == Passed(Left(st.(marks := st.marks[n.key := Path]), n.key))
  {
    hide Children, ChildAt, Cost;
  }

  /** A node with one pointer, to something new or finished. */
  lemma StemVisit(m: Mem, n: Node, c: Node, i: nat, depth: nat, st: State, limit: nat, st': State)
    requires i == 0 && Children(n.p) == i + 1 && ChildAt(m, n, i) == Found(c) && depth > 0
    requires st.used + Cost(c.p) <= limit
    requires var on := State(st.marks[n.key := Path], st.used + Cost(c.p));
      if c.key !in on.marks then Visit(m, c, depth - 1, on, limit) == Passed(st')
      else on.marks[c.key] == Done && st' == on
    ensures Visit(m, n, depth, st, limit) == Passed(Left(st', n.key))
  {
    hide Children, ChildAt, Cost;
    var on := st.(marks := st.marks[n.key := Path]);
    assert FollowOne(m, n, i, depth, on, limit) == Passed(st') by { hide Visit, Follows; }
    StemFollows(m, n, i, depth, on, limit, st');
    hide Follows;
  }

  lemma StemFollows(m: Mem, n: Node, i: nat, depth: nat, st: State, limit: nat, st': State)
    requires Children(n.p) == i + 1 && FollowOne(m, n, i, depth, st, limit) == Passed(st')
    ensures Follows(m, n, i, depth, st, limit) == Passed(st')
  {
    hide FollowOne, Children;
    assert Follows(m, n, i + 1, depth, st', limit) == Passed(st');
  }

  lemma FiveVisit(m: Mem, a: Node, b: Node, d: Node, e: Node, i: nat, depth: nat, used: nat, limit: nat)
    requires i == 0 && depth == 2 && used + 32 <= limit
    requires a == StructNode(1, 0, 2) && b == StructNode(3, 0, 1) && d == StructNode(4, 0, 1)
      && e == StructNode(5, 1, 0)
    requires Children(a.p) == i + 2 && Children(b.p) == Children(d.p) == i + 1 && Children(e.p) == 0
    requires ChildAt(m, a, i) == Found(b) && ChildAt(m, a, i + 1) == Found(d)
    requires ChildAt(m, b, i) == Found(e) && ChildAt(m, d, i) == Found(b)
    requires Cost(b.p) == Cost(d.p) == Cost(e.p) == 8
    ensures Visit(m, a, depth, State(map[], used), limit).Passed?
  {
    hide Children, ChildAt, Cost, Visit, Follows, FollowOne;
    var st := State(map[][a.key := Path], used);
    // b, and e below it
    var onB := State(st.marks[b.key := Path], used + 16);
    LeafVisit(m, e, depth - 2, onB, limit);
    var st1 := Left(onB.(marks := onB.marks[e.key := Path]), e.key);
    StemVisit(m, b, e, i, depth - 1, State(st.marks, used + 8), limit, st1);
    var st2 := Left(st1, b.key);
    // d, and b again
    var onD := State(st2.marks[d.key := Path], used + 32);
    StemVisit(m, d, b, i, depth - 1, State(st2.marks, used + 24), limit, onD);
    var st3 := Left(onD, d.key);
    ForkFollows(m, a, b, d, i, depth, st, limit, st2, st3);
    VisitIs(m, a, depth, State(map[], used), limit);
  }

  /** A node with two pointers, to something new each. */
  lemma ForkFollows(m: Mem, n: Node, b: Node, d: Node, i: nat, depth: nat, st: State, limit: nat, st2: State,
      st3: State)
    requires Children(n.p) == i + 2 && ChildAt(m, n, i) == Found(b) && ChildAt(m, n, i + 1) == Found(d) && depth > 0
    requires b.key !in st.marks && d.key !in st2.marks
    requires st.used + Cost(b.p) <= limit && st2.used + Cost(d.p) <= limit
    requires Visit(m, b, depth - 1, State(st.marks, st.used + Cost(b.p)), limit) == Passed(st2)
    requires Visit(m, d, depth - 1, State(st2.marks, st2.used + Cost(d.p)), limit) == Passed(st3)
    ensures Follows(m, n, i, depth, st, limit) == Passed(st3)
  {
    hide Children, ChildAt, Cost, Visit;
    assert FollowOne(m, n, i, depth, st, limit) == Passed(st2);
    assert FollowOne(m, n, i + 1, depth, st2, limit) == Passed(st3);
    hide FollowOne;
    assert Follows(m, n, i + 2, depth, st3, limit) == Passed(st3);
    assert Follows(m, n, i + 1, depth, st2, limit) == Passed(st3);
  }
}
