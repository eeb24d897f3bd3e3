/**
 What the acceptance of capn_validate is worth to a reader who knows nothing of children and paths: every pointer
 word of every object is null or can be read, so that the message means something.
 */
module Accepted {
  import opened Wire
  import opened Arena
  import opened Validate
  import CanonSource
  import Canonicalize

  /** Where pointer j of element i is. */
  function PointerAt(p: Ptr, i: nat, j: nat): nat
    requires p.Obj?
  {
    p.data + i * p.shape.Stride() + p.shape.DataWords() + j
  }

  /** A slot and what a path leads to: a zero word, or one that reads as that, which was finished before time r. */
  ghost predicate Reads(m: Mem, s: nat, d: nat, c: SlotValue, cert: Certificate, r: nat) {
    && s < |m| && d < |m[s]|
    && (m[s][d] != 0 ==>
          && c.Found? && c.node.p != Null && ReadSlot(m, s, d) == Got(c.node.p)
          && c.node.key in cert.rank && cert.rank[c.node.key] < r)
  }

  /** Pointer j of element i of an object that is reached: a zero word, or one that reads as something. */
  lemma PointerReads(m: Mem, root: Node, cert: Certificate, now: nat, path: seq<nat>, n: Node, i: nat, j: nat)
      returns (next: seq<nat>)
    requires Certifies(m, root, cert, now) && root.key in cert.rank && KeysTellChildren(m, root)
    requires Follow(m, root, path) == Found(n) && Inside(m, n.p)
    requires n.p.Obj? && i < n.p.shape.Elems() && j < n.p.shape.PtrWords()
    ensures n.key in cert.rank
      && Reads(m, n.p.seg, PointerAt(n.p, i, j), Follow(m, root, next), cert, cert.rank[n.key])
  {
    var idx := EveryPointer(n.p, i, j);
    next := path + [idx];
    assert next[..|next| - 1] == path;
    hide Certifies, KeysTellChildren, ReadNode, Children, ChildSlot, ChildAt, Settled;
    hide Shape.Size, Shape.Stride, Shape.DataWords, Shape.Elems, Shape.PtrWords, Inside, InUniverse;
    ChildIs(m, n, idx);
    AcceptedPath(m, root, cert, now, path);
    NodeSettled(m, root, cert, now, path, idx);
    hide Follow;
    NodeReads(m, cert, n, idx);
  }

  lemma NodeReads(m: Mem, cert: Certificate, n: Node, idx: nat)
    requires n.p.Obj? && n.p.seg < |m| && idx < Children(n.p) && ChildSlot(n.p, idx) < |m[n.p.seg]|
    requires ChildAt(m, n, idx) == ReadNode(m, n.p.seg, ChildSlot(n.p, idx))
    requires n.key in cert.rank && Settled(m, cert.rank, n, idx, cert.rank[n.key])
    ensures Reads(m, n.p.seg, ChildSlot(n.p, idx), ChildAt(m, n, idx), cert, cert.rank[n.key])
  {
    hide ChildAt, Children, ChildSlot, NodeKey, Inside, InUniverse, ReadSlot;
  }

  /** So the object has a value: the descent is bounded by when it was finished. */
  lemma {:induction false} NodeMeans(m: Mem, root: Node, cert: Certificate, now: nat, path: seq<nat>, depth: nat)
    requires Certifies(m, root, cert, now) && root.key in cert.rank && KeysTellChildren(m, root)
    requires var r := Follow(m, root, path);
      r.Found? && CanonSource.Sound(m, r.node.p) && r.node.key in cert.rank && cert.rank[r.node.key] <= depth
    ensures CanonSource.Decoded(m, Follow(m, root, path).node.p, depth).Means?
    decreases depth
  {
    hide Certifies, KeysTellChildren, Follow;
    var n := Follow(m, root, path).node;
    if n.p.Obj? {
      forall i, j | 0 <= i < n.p.shape.Elems() && 0 <= j < n.p.shape.PtrWords()
        ensures CanonSource.DecodedKid(m, n.p, i, j, depth).Means?
      {
        var next := PointerReads(m, root, cert, now, path, n, i, j);
        WordAt(m, n.p, i, j);
        if m[n.p.seg][PointerAt(n.p, i, j)] != 0 {
          CanonSource.ReadsSound(m, n.p.seg, PointerAt(n.p, i, j));
          NodeMeans(m, root, cert, now, next, depth - 1);
        }
        hide CanonSource.Object, CanonSource.Decoded, CanonSource.Sound, ReadSlot, Shape.Elems, Shape.PtrWords;
      }
    }
  }

  lemma WordAt(m: Mem, p: Ptr, i: nat, j: nat)
    requires CanonSource.Object(m, p) && i < p.shape.Elems() && j < p.shape.PtrWords()
    ensures CanonSource.Cell(m, p, i, p.shape.DataWords() + j) == PointerAt(p, i, j)
  {
  }

  /**
   An accepted message has a meaning: nothing behind its root is unreadable, and no descent goes on for ever, if
   objects with one key lead to the same things.
   */
  lemma AcceptedMeans(m: Mem, cert: Certificate, now: nat) returns (nest: nat)
    requires Validate.Accepted(m, cert, now) && (m != [] ==> m[0] != [])
    requires m != [] && ReadNode(m, 0, 0).Found? ==> KeysTellChildren(m, ReadNode(m, 0, 0).node)
    ensures nest > 0 && Canonicalize.RootMeaning(m, nest).Means?
  {
    hide Certifies, KeysTellChildren;
    nest := 1;
    if m != [] && m[0][0] != 0 {
      CanonSource.ReadsSound(m, 0, 0);
      var root := ReadNode(m, 0, 0).node;
      nest := cert.rank[root.key] + 1;
      assert Follow(m, root, []) == Found(root);
      NodeMeans(m, root, cert, now, [], nest - 1);
    }
  }
}
