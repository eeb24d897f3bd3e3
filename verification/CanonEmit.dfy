/** The second pass of capn_canonicalize: canon_emit. */
module CanonEmit {
  import opened Powers
  import opened Wire
  import opened Arena
  import opened Pointers
  import opened VisitedSet
  import opened CanonValue
  import opened CanonSource
  import opened CanonAgain
  import opened CanonMeasure

  // ---- laying out a tree one pointer at a time ---------------------------------------------

  /** A value has been put at the end of the words and linked from q; nothing else has changed. */
  ghost predicate Emitted(w: seq<word>, w': seq<word>, q: nat, v: Value) {
    && Good(v) && |w'| == |w| + Size(v) <= MAX_WORDS && q < |w|
    && (forall x | 0 <= x < |w| && x != q :: w'[x] == w[x])
    && w'[q] == Link(v, q, |w|) && Laid(w', v, |w|)
  }

  /** The object is at e, and what its pointers before (i, j) lead to fills the words up to the end. */
  ghost predicate Partial(w: seq<word>, v: Value, e: nat, i: nat, j: nat) {
    && v.Tree? && Good(v) && Fits(v) && i <= |v.rows| && j <= v.shape.PtrWords() && (j > 0 ==> i < |v.rows|)
    && |w| == KidAt(v, e, i, j) && e + Size(v) <= MAX_WORDS && |w| <= MAX_WORDS && Own(w, v, e)
    && forall a, b | InGrid(v, a, b) && Earlier(a, b, i, j) :: LaidKid(w, v, e, a, b)
  }

  /** Different columns or rows, different words. */
  lemma AtInjective(shape: Shape, e: nat, i: nat, c: nat, i': nat, c': nat)
    requires i < shape.Elems() && c < shape.Stride() && i' < shape.Elems() && c' < shape.Stride()
    requires At(shape, e, i, c) == At(shape, e, i', c')
    ensures i == i' && c == c'
  {
    var k := shape.Stride();
    if i < i' {
      RowEnd(i, i', k);
      assert false;
    } else if i' < i {
      RowEnd(i', i, k);
      assert false;
    }
  }

  /** Emitting the next child lays out one pointer more. */
  lemma PartialStep(w: seq<word>, w': seq<word>, v: Value, e: nat, i: nat, j: nat)
    requires Partial(w, v, e, i, j) && InGrid(v, i, j) && Emitted(w, w', SlotAt(v, e, i, j), Kid(v, i, j))
    ensures Partial(w', v, e, i, j + 1)
  {
    var q := SlotAt(v, e, i, j);
    KidInside(v, e, i, j);
    OwnKept(w, w', v, e, i, j);
    forall a, b | InGrid(v, a, b) && Earlier(a, b, i, j + 1) ensures LaidKid(w', v, e, a, b) {
      if a == i && b == j {
        assert LaidKid(w', v, e, a, b);
      } else {
        assert LaidKid(w, v, e, a, b);
        KidKept(w, w', v, e, i, j, a, b);
      }
    }
  }

  lemma OwnKept(w: seq<word>, w': seq<word>, v: Value, e: nat, i: nat, j: nat)
    requires v.Tree? && Good(v) && Fits(v) && Own(w, v, e) && InGrid(v, i, j) && |w| <= |w'|
    requires forall x | 0 <= x < |w| && x != SlotAt(v, e, i, j) :: w'[x] == w[x]
    ensures Own(w', v, e)
  {
    forall a, c | 0 <= a < |v.rows| && 0 <= c < v.shape.DataWords()
      ensures w'[At(v.shape, e, a, c)] == v.rows[a].data[c]
    {
      if At(v.shape, e, a, c) == SlotAt(v, e, i, j) {
        AtInjective(v.shape, e, a, c, i, v.shape.DataWords() + j);
      }
    }
  }

  lemma KidKept(w: seq<word>, w': seq<word>, v: Value, e: nat, i: nat, j: nat, a: nat, b: nat)
    requires v.Tree? && Good(v) && Fits(v) && InGrid(v, i, j) && InGrid(v, a, b) && (a != i || b != j)
    requires |w| <= |w'| <= MAX_WORDS && LaidKid(w, v, e, a, b)
    requires forall x | 0 <= x < |w| && x != SlotAt(v, e, i, j) :: w'[x] == w[x]
    ensures LaidKid(w', v, e, a, b)
  {
    KidInside(v, e, a, b);
    if SlotAt(v, e, a, b) == SlotAt(v, e, i, j) {
      AtInjective(v.shape, e, a, v.shape.DataWords() + b, i, v.shape.DataWords() + j);
    }
    LaidFrame(w, w', Kid(v, a, b), KidAt(v, e, a, b));
  }

  lemma PartialRow(w: seq<word>, v: Value, e: nat, i: nat)
    requires v.Tree? && i < |v.rows| && Partial(w, v, e, i, v.shape.PtrWords())
    ensures Partial(w, v, e, i + 1, 0)
  {
    hide Own, LaidKid, Good;
  }

  lemma PartialEnds(w: seq<word>, v: Value, e: nat)
    requires v.Tree? && Partial(w, v, e, |v.rows|, 0)
    ensures |w| == e + Size(v) && Laid(w, v, e)
  {
    hide Own, LaidKid, Good;
    forall i, j | InGrid(v, i, j) ensures LaidKid(w, v, e, i, j) {
      assert Earlier(i, j, |v.rows|, 0);
    }
  }

  // ---- the destination ----------------------------------------------------------------------

  /** The destination is not part of the source. */
  ghost predicate Apart(c: Capn, ds: Segment)
    reads c`segs, c.segs, ds
    ensures Apart(c, ds) ==> c.Valid() && ds.Valid()
  {
    c.Valid() && ds.Valid() && forall i | 0 <= i < |c.segs| :: c.segs[i] != ds && c.segs[i].data != ds.data
  }

  /** canon_alloc */
  method Alloc(c: Capn, ds: Segment, n: nat) returns (ok: bool, at: nat)
    requires Apart(c, ds)
    modifies ds`len
    ensures Apart(c, ds) && c.Mem() == old(c.Mem())
    ensures at == old(ds.len) && (ok <==> old(ds.len) + n <= ds.cap)
    ensures ds.len == if ok then old(ds.len) + n else old(ds.len)
    ensures ds.Words()[..at] == old(ds.Words())
  {
    ghost var m := c.Mem();
    at := ds.len;
    ok := n <= ds.cap - ds.len;
    if ok {
      ds.len := ds.len + n;
    }
    SameMem(c, m);
  }

  lemma SameMem(c: Capn, m: Mem)
    requires c.Valid() && |m| == |c.segs| && forall i | 0 <= i < |m| :: c.segs[i].Words() == m[i]
    ensures c.Mem() == m
  {
  }

  method SetWordAt(c: Capn, ds: Segment, d: nat, w: word)
    requires Apart(c, ds) && d < ds.len
    modifies ds.data
    ensures Apart(c, ds) && c.Mem() == old(c.Mem())
    ensures ds.Words() == PutWord(old(ds.Words()), d, w)
  {
    ghost var m := c.Mem();
    ds.data[d] := w;
    SameMem(c, m);
  }

  /** Word k of row i, as it is copied: the last word of a data list only up to its last bit. */
  method DataWord(c: Capn, p: Ptr, i: nat, k: nat) returns (w: word)
    requires c.Valid() && Object(c.Mem(), p) && i < p.shape.Elems() && k < CutOf(c.Mem(), p).DataWords()
    ensures w == DataOf(c.Mem(), p, CutOf(c.Mem(), p).DataWords(), i)[k]
  {
    assert p.shape.Prim? ==> CutOf(c.Mem(), p) == p.shape && i == 0;
    hide CutOf, Object, Pow2, Cell;
    w := WordAt(c, p, i, k);
    if p.shape.Prim? && Bits(p.shape) % 64 != 0 && k == p.shape.DataWords() - 1 {
      w := Low(w, Bits(p.shape) % 64);
    }
  }

  ghost predicate CopiedWord(m: Mem, p: Ptr, w: seq<word>, e: nat, i: nat, c: nat)
    requires Object(m, p) && i < p.shape.Elems() && c < CutOf(m, p).DataWords()
  {
    var cut := CutOf(m, p);
    At(cut, e, i, c) < |w| && w[At(cut, e, i, c)] == DataOf(m, p, cut.DataWords(), i)[c]
  }

  /** The data words before column k of row i are in place. */
  ghost predicate CopiedTo(m: Mem, p: Ptr, w: seq<word>, e: nat, i: nat, k: nat)
    requires Object(m, p)
  {
    forall a, b | 0 <= a < p.shape.Elems() && 0 <= b < CutOf(m, p).DataWords()
      && Earlier(a, b, i, k) :: CopiedWord(m, p, w, e, a, b)
  }

  lemma CopyStep(m: Mem, p: Ptr, w: seq<word>, e: nat, i: nat, k: nat)
    requires Object(m, p) && i < p.shape.Elems() && k < CutOf(m, p).DataWords() && CopiedTo(m, p, w, e, i, k)
    requires At(CutOf(m, p), e, i, k) < |w|
    ensures CopiedTo(m, p, PutWord(w, At(CutOf(m, p), e, i, k), DataOf(m, p, CutOf(m, p).DataWords(), i)[k]), e, i,
      k + 1)
  {
    var cut := CutOf(m, p);
    hide CutOf, Object, DataOf, At;
    var w' := PutWord(w, At(cut, e, i, k), DataOf(m, p, cut.DataWords(), i)[k]);
    forall a, b | 0 <= a < p.shape.Elems() && 0 <= b < cut.DataWords() && Earlier(a, b, i, k + 1)
      ensures CopiedWord(m, p, w', e, a, b)
    {
      if a == i && b == k {
      } else {
        assert CopiedWord(m, p, w, e, a, b);
        if At(cut, e, a, b) == At(cut, e, i, k) {
          AtInjective(cut, e, a, b, i, k);
        }
      }
    }
  }

  /** Copies the data words of every row. */
  method CopyData(c: Capn, p: Ptr, cut: Shape, ds: Segment, e: nat)
    requires Apart(c, ds) && Object(c.Mem(), p) && cut == CutOf(c.Mem(), p) && e + cut.Extra() + cut.Size() <= ds.len
    modifies ds.data
    ensures Apart(c, ds) && c.Mem() == old(c.Mem())
    ensures forall x | 0 <= x < e + cut.Extra() :: ds.Words()[x] == old(ds.Words())[x]
    ensures CopiedTo(c.Mem(), p, ds.Words(), e, p.shape.Elems(), 0)
  {
    hide CutOf, Object, MemOf, DataOf, CopiedTo, At, Shape.Size;
    ghost var m, was := c.Mem(), ds.Words();
    CopyStarts(m, p, was, e);
    for i := 0 to cut.Elems()
      invariant Apart(c, ds) && c.Mem() == m && |ds.Words()| == |was|
      invariant forall x | 0 <= x < e + cut.Extra() :: ds.Words()[x] == was[x]
      invariant CopiedTo(m, p, ds.Words(), e, i, 0)
    {
      for k := 0 to cut.DataWords()
        invariant Apart(c, ds) && c.Mem() == m && |ds.Words()| == |was|
        invariant forall x | 0 <= x < e + cut.Extra() :: ds.Words()[x] == was[x]
        invariant CopiedTo(m, p, ds.Words(), e, i, k)
      {
        var w := DataWord(c, p, i, k);
        CopyStep(m, p, ds.Words(), e, i, k);
        SetWordAt(c, ds, At(cut, e, i, k), w);
      }
      CopyRow(m, p, ds.Words(), e, i);
    }
  }

  lemma CopyStarts(m: Mem, p: Ptr, w: seq<word>, e: nat)
    requires Object(m, p)
    ensures CopiedTo(m, p, w, e, 0, 0)
  {
  }

  lemma CopyRow(m: Mem, p: Ptr, w: seq<word>, e: nat, i: nat)
    requires Object(m, p) && CopiedTo(m, p, w, e, i, CutOf(m, p).DataWords())
    ensures CopiedTo(m, p, w, e, i + 1, 0)
  {
    hide CutOf, Object, CopiedWord;
  }

  /** With the data in place and the tag of a composite list in front, the object is there. */
  lemma ObjectIsThere(m: Mem, p: Ptr, rem: nat, path: set<Key>, w: seq<word>, e: nat)
    requires Object(m, p) && CopiedTo(m, p, w, e, p.shape.Elems(), 0)
    requires var cut := CutOf(m, p);
      && e + cut.Extra() + cut.Size() == |w|
      && e + Size(Found(m, p, rem, path)) <= MAX_WORDS
    requires var cut := CutOf(m, p); cut.Composite? ==> w[e] == CompositeTag(cut.n, cut.dw, cut.pw)
    ensures Partial(w, Found(m, p, rem, path), e, 0, 0)
  {
    var v, cut := Found(m, p, rem, path), CutOf(m, p);
    FoundFits(m, p, rem, path);
    FoundGood(m, p, rem, path);
    hide CutOf, Object, DataOf, At, Good, CompositeTag;
    forall i, c | 0 <= i < |v.rows| && 0 <= c < cut.DataWords() ensures w[At(cut, e, i, c)] == v.rows[i].data[c] {
      assert Earlier(i, c, p.shape.Elems(), 0);
      assert CopiedWord(m, p, w, e, i, c);
      assert v.rows[i] == FoundRow(m, p, i, rem, path);
    }
    hide Found;
  }

  // ---- the pass -----------------------------------------------------------------------------

  /** The traversal gets through, within the limit, and the tree fits behind the first `len` words. */
  ghost predicate Ready(w: Walked, used: nat, limit: nat, len: nat, cap: nat)
    ensures Ready(w, used, limit, len, cap) ==> w.Seen?
  {
    w.Seen? && Pays(used, w.cost, limit) && len + Size(w.v) <= cap && len + Size(w.v) <= MAX_WORDS
  }

  /** What has to be true of an emission that succeeds, whatever the size of the destination. */
  ghost predicate Enough(w: Walked, used: nat, used': nat, limit: nat, len: nat, len': nat)
    ensures Enough(w, used, used', limit, len, len') ==> w.Seen?
  {
    w.Seen? && Pays(used, w.cost, limit) && used' == used + w.cost && len' == len + Size(w.v)
  }

  /** In a destination that near pointers reach all over, that is being ready. */
  lemma EnoughIsReady(w: Walked, used: nat, used': nat, limit: nat, len: nat, len': nat, cap: nat)
    requires Enough(w, used, used', limit, len, len') && len' <= cap <= MAX_WORDS
    ensures Ready(w, used, limit, len, cap)
  {
    hide Size;
  }

  /** The same of the pointers of an object: all seen and paid for, and the words of what they lead to. */
  ghost predicate KidsEnough(m: Mem, p: Ptr, rem: nat, path: set<Key>, used: nat, used': nat, limit: nat, n: nat)
    requires Object(m, p)
  {
    PassedTo(m, p, rem, path, p.shape.Elems(), 0, used, used', limit, n)
  }

  /** How far an emission has come: everything before (i, j) was seen and paid for, and took n words. */
  ghost predicate PassedTo(m: Mem, p: Ptr, rem: nat, path: set<Key>, i: nat, j: nat, used: nat, used': nat, limit: nat,
      n: nat)
    requires Object(m, p)
  {
    && Spot(m, p, i, j) && SeenTo(m, p, rem, path, i, j)
    && used' == used + Spent(m, p, rem, path, i, j) && Pays(used, Spent(m, p, rem, path, i, j), limit)
    && n == Put(m, p, rem, path, i, j)
  }

  lemma PassStarts(m: Mem, p: Ptr, rem: nat, path: set<Key>, used: nat, limit: nat)
    requires Object(m, p)
    ensures PassedTo(m, p, rem, path, 0, 0, used, used, limit, 0)
  {
    FoundFits(m, p, rem, path);
    hide CutOf, Object, Rows;
  }

  lemma PassStep(m: Mem, p: Ptr, rem: nat, path: set<Key>, i: nat, j: nat, used: nat, used': nat, used'': nat,
      limit: nat, n: nat, len: nat, len': nat)
    requires Object(m, p) && PassedTo(m, p, rem, path, i, j, used, used', limit, n)
    requires i < p.shape.Elems() && j < CutOf(m, p).PtrWords()
    requires Enough(Child(m, p, i, j, rem, path), used', used'', limit, len, len')
    ensures len' >= len && PassedTo(m, p, rem, path, i, j + 1, used, used'', limit, n + len' - len)
  {
    hide Object, CutOf, Child;
    FoundFits(m, p, rem, path);
    var v := Found(m, p, rem, path);
    assert InGrid(v, i, j);
    FoundKid(m, p, rem, path, i, j);
    PaysSum(used, Spent(m, p, rem, path, i, j), Child(m, p, i, j, rem, path).cost, limit);
    hide Found, Pays;
  }

  lemma PassRow(m: Mem, p: Ptr, rem: nat, path: set<Key>, i: nat, used: nat, used': nat, limit: nat, n: nat)
    requires Object(m, p) && i < p.shape.Elems()
    requires PassedTo(m, p, rem, path, i, CutOf(m, p).PtrWords(), used, used', limit, n)
    ensures PassedTo(m, p, rem, path, i + 1, 0, used, used', limit, n)
  {
    FoundFits(m, p, rem, path);
    hide CutOf, Object, Rows, Child;
  }

  /** An object whose pointers have all been emitted. */
  lemma PassEnds(m: Mem, p: Ptr, rem: nat, path: set<Key>, used: nat, used': nat, limit: nat, n: nat)
    requires Object(m, p) && KidsEnough(m, p, rem, path, used, used', limit, n)
    ensures AllSeen(m, p, rem, path) && Pays(used, Spent(m, p, rem, path, p.shape.Elems(), 0), limit)
    ensures used' == used + Spent(m, p, rem, path, p.shape.Elems(), 0)
    ensures CutOf(m, p).Extra() + CutOf(m, p).Size() + n == Size(Found(m, p, rem, path))
  {
    FoundSize(m, p, rem, path);
    hide CutOf, Object, Found, Size;
    forall a, b | 0 <= a < p.shape.Elems() && 0 <= b < CutOf(m, p).PtrWords()
      ensures Child(m, p, a, b, rem, path).Seen?
    {
      assert Earlier(a, b, p.shape.Elems(), 0);
    }
  }

  /** The object as a whole, once it is done. */
  lemma WholeEnough(m: Mem, p: Ptr, rem: nat, path: set<Key>, used: nat, used': nat, limit: nat, len: nat, n: nat)
    requires Sound(m, p) && p.Obj? && Object(m, p) && KeyOf(p) !in path
    requires KidsEnough(m, p, rem, path + {KeyOf(p)}, used, used', limit, n)
    ensures Enough(Walk(m, p, rem, path), used, used', limit, len, len + CutOf(m, p).Extra() + CutOf(m, p).Size() + n)
  {
    WalkIs(m, p, rem, path);
    hide *;
    PassEnds(m, p, rem, path + {KeyOf(p)}, used, used', limit, n);
    EnoughIf(Walk(m, p, rem, path), used, used', limit, len, CutOf(m, p).Extra() + CutOf(m, p).Size() + n);
  }

  lemma EnoughIf(w: Walked, used: nat, used': nat, limit: nat, len: nat, n: nat)
    requires w.Seen? && Pays(used, w.cost, limit) && used' == used + w.cost && n == Size(w.v)
    ensures Enough(w, used, used', limit, len, len + n)
  {
  }

  /** The same of the pointers of an object at e. */
  ghost predicate KidsReady(m: Mem, p: Ptr, rem: nat, path: set<Key>, used: nat, limit: nat, e: nat, cap: nat)
    requires Object(m, p)
  {
    && AllSeen(m, p, rem, path) && Pays(used, Spent(m, p, rem, path, p.shape.Elems(), 0), limit)
    && e + Size(Found(m, p, rem, path)) <= cap && e + Size(Found(m, p, rem, path)) <= MAX_WORDS
  }

  /**
   canon_emit: when the traversal gets through, the charges are within the limit and there is room for
   the tree, it succeeds and lays out the tree at the end of the destination, linked from slot q. When it
   succeeds, the traversal did get through, was paid for, and the tree took just its room.
   */
  method Emit(c: Capn, p: Ptr, rem: nat, vs: VSet<Key>, ds: Segment, q: nat) returns (ok: bool)
    requires Apart(c, ds) && Sound(c.Mem(), p) && vs.Valid() && q < ds.len
    modifies c`traversalUsed, c`decodeErr, vs, vs.tab, ds`len, ds.data
    ensures Apart(c, ds) && c.Mem() == old(c.Mem()) && old(ds.len) <= ds.len
    ensures vs.Valid() && (vs.tab == old(vs.tab) || fresh(vs.tab)) && PathOf(vs) == old(PathOf(vs))
    ensures var w := Walk(c.Mem(), p, rem, old(PathOf(vs)));
      Ready(w, old(c.traversalUsed), c.traversalLimit, old(ds.len), ds.cap) ==>
        ok && Emitted(old(ds.Words()), ds.Words(), q, w.v) && c.traversalUsed == old(c.traversalUsed) + w.cost
    ensures ok ==> Enough(Walk(c.Mem(), p, rem, old(PathOf(vs))), old(c.traversalUsed), c.traversalUsed,
      c.traversalLimit, old(ds.len), ds.len)
    decreases rem, 4
  {
    hide VSet.Valid, PathOf, MemOf, Walk, Ready, Emitted, Apart, Sound, Enough;
    if p.Obj? {
      ok := EmitTree(c, p, rem, vs, ds, q);
    } else {
      LeafEnough(c.Mem(), p, rem, PathOf(vs), c.traversalUsed, c.traversalLimit, ds.len);
      EmitLeaf(c, p, ds, q, rem, PathOf(vs), c.traversalUsed, c.traversalLimit);
      ok := true;
    }
  }

  /** An object joins the path while it is emitted, unless it is on the path already. */
  method EmitTree(c: Capn, p: Ptr, rem: nat, vs: VSet<Key>, ds: Segment, q: nat) returns (ok: bool)
    requires Apart(c, ds) && Sound(c.Mem(), p) && p.Obj? && vs.Valid() && q < ds.len
    modifies c`traversalUsed, c`decodeErr, vs, vs.tab, ds`len, ds.data
    ensures Apart(c, ds) && c.Mem() == old(c.Mem()) && old(ds.len) <= ds.len
    ensures vs.Valid() && (vs.tab == old(vs.tab) || fresh(vs.tab)) && PathOf(vs) == old(PathOf(vs))
    ensures var w := Walk(c.Mem(), p, rem, old(PathOf(vs)));
      Ready(w, old(c.traversalUsed), c.traversalLimit, old(ds.len), ds.cap) ==>
        ok && Emitted(old(ds.Words()), ds.Words(), q, w.v) && c.traversalUsed == old(c.traversalUsed) + w.cost
    ensures ok ==> Enough(Walk(c.Mem(), p, rem, old(PathOf(vs))), old(c.traversalUsed), c.traversalUsed,
      c.traversalLimit, old(ds.len), ds.len)
    decreases rem, 3
  {
    hide VSet.Valid, PathOf, MemOf, Object, Walk, Ready, KidsReady, Found, Spent, Emitted, Apart, Sound, Shape.Elems,
      KeyOf, Enough, KidsEnough, CutOf, Shape.Size, Shape.Extra;
    ghost var m, path, used, limit := c.Mem(), PathOf(vs), c.traversalUsed, c.traversalLimit;
    EmitObjectReady(m, p, rem, path, used, limit, ds.len, ds.cap);
    var cycle := EnterPath(vs, KeyOf(p));
    if cycle {
      return false;
    }
    ghost var len := ds.len;
    ghost var n;
    ok, n := EmitObject(c, p, rem, vs, ds, q);
    LeavePath(vs, KeyOf(p));
    if ok {
      WholeEnough(m, p, rem, path, used, c.traversalUsed, limit, len, n);
    }
  }

  lemma LeafEnough(m: Mem, p: Ptr, rem: nat, path: set<Key>, used: nat, limit: nat, len: nat)
    requires Sound(m, p) && !p.Obj?
    ensures Enough(Walk(m, p, rem, path), used, used, limit, len, len)
  {
  }

  /** A null pointer or a capability is all in its slot. */
  method EmitLeaf(c: Capn, p: Ptr, ds: Segment, q: nat, ghost rem: nat, ghost path: set<Key>, ghost used: nat,
      ghost limit: nat)
    requires Apart(c, ds) && Sound(c.Mem(), p) && !p.Obj? && q < ds.len
    modifies ds.data
    ensures Apart(c, ds) && c.Mem() == old(c.Mem()) && ds.len == old(ds.len)
    ensures var w := Walk(c.Mem(), p, rem, path);
      Ready(w, used, limit, ds.len, ds.cap) ==> w.cost == 0 && Emitted(old(ds.Words()), ds.Words(), q, w.v)
  {
    hide MemOf, Walk, Ready, Emitted, Encode, Apart;
    var w := if p == Null then 0 else Encode(OtherPtr(0, p.index));
    LeafEmitted(c.Mem(), p, rem, path, ds.Words(), q, w, used, limit, ds.cap);
    SetWordAt(c, ds, q, w);
  }

  lemma LeafEmitted(m: Mem, p: Ptr, rem: nat, path: set<Key>, was: seq<word>, q: nat, w: word, used: nat, limit: nat,
      cap: nat)
    requires Sound(m, p) && !p.Obj? && q < |was| && w == if p == Null then 0 else Encode(OtherPtr(0, p.index))
    ensures var u := Walk(m, p, rem, path);
      Ready(u, used, limit, |was|, cap) ==> u.cost == 0 && Emitted(was, PutWord(was, q, w), q, u.v)
  {
    hide Encode;
  }

  lemma EmitObjectReady(m: Mem, p: Ptr, rem: nat, path: set<Key>, used: nat, limit: nat, len: nat, cap: nat)
    requires Sound(m, p) && p.Obj?
    ensures Object(m, p)
    ensures var inner, w := path + {KeyOf(p)}, Walk(m, p, rem, path);
      && (KeyOf(p) in path ==> w == Stuck && !Ready(w, used, limit, len, cap))
      && (KeyOf(p) !in path ==>
        && (Ready(w, used, limit, len, cap) ==> KidsReady(m, p, rem, inner, used, limit, len, cap))
        && (w.Seen? ==> w == Seen(Found(m, p, rem, inner), Spent(m, p, rem, inner, p.shape.Elems(), 0))))
  {
    WalkIs(m, p, rem, path);
    hide Walk, Sound, Object, AllSeen, Found, Spent, Size, KeyOf;
  }

  /** An object that is on the path: its own words, then what its pointers lead to. */
  method EmitObject(c: Capn, p: Ptr, rem: nat, vs: VSet<Key>, ds: Segment, q: nat) returns (ok: bool, ghost n: nat)
    requires Apart(c, ds) && Object(c.Mem(), p) && vs.Valid() && q < ds.len
    modifies c`traversalUsed, c`decodeErr, vs, vs.tab, ds`len, ds.data
    ensures Apart(c, ds) && c.Mem() == old(c.Mem()) && old(ds.len) <= ds.len
    ensures vs.Valid() && (vs.tab == old(vs.tab) || fresh(vs.tab)) && PathOf(vs) == old(PathOf(vs))
    ensures var path := old(PathOf(vs));
      KidsReady(c.Mem(), p, rem, path, old(c.traversalUsed), c.traversalLimit, old(ds.len), ds.cap) ==>
        && ok && Emitted(old(ds.Words()), ds.Words(), q, Found(c.Mem(), p, rem, path))
        && c.traversalUsed == old(c.traversalUsed) + Spent(c.Mem(), p, rem, path, p.shape.Elems(), 0)
    ensures ok ==> KidsEnough(c.Mem(), p, rem, old(PathOf(vs)), old(c.traversalUsed), c.traversalUsed,
      c.traversalLimit, n)
    ensures ok ==> ds.len == old(ds.len) + CutOf(c.Mem(), p).Extra() + CutOf(c.Mem(), p).Size() + n
    decreases rem, 2
  {
    hide VSet.Valid, PathOf, MemOf, Object, CutOf, KidsReady, Found, Spent, Emitted, EmittedTo, Partial, CopiedTo;
    hide TagPointer, Encode, CompositeTag, Shape.Size, Size, Fronted, Apart, KidsEnough;
    ghost var m, path, was := c.Mem(), PathOf(vs), ds.Words();
    var cut := Truncate(c, p);
    KidsFit(m, p, rem, path, c.traversalUsed, c.traversalLimit, ds.len, ds.cap);
    if cut.EmptyStruct() {
      var _, tag := TagValue(cut, -1);
      HollowEmitted(m, p, rem, path, was, q, tag, c.traversalUsed, c.traversalLimit, ds.cap);
      HollowEnough(m, p, rem, path, c.traversalUsed, c.traversalLimit);
      SetWordAt(c, ds, q, tag);
      return true, 0;
    }
    var e;
    n := 0;
    ok, e := EmitFront(c, p, cut, ds, q);
    if ok {
      FrontPartial(m, p, rem, path, was, ds.Words(), q, c.traversalUsed, c.traversalLimit, ds.cap);
      ghost var front, used := ds.Words(), c.traversalUsed;
      ok, n := EmitKids(c, p, cut, rem, vs, ds, e);
      EmitEnds(m, p, rem, path, front, ds.Words(), e, used, c.traversalUsed);
      ObjectEmitted(m, p, rem, path, was, front, ds.Words(), q);
    }
  }

  /** The object's pointer, its tag and its data are in place. */
  ghost predicate Fronted(m: Mem, p: Ptr, w: seq<word>, w': seq<word>, q: nat)
    requires Object(m, p)
  {
    var cut, e := CutOf(m, p), |w|;
    && q < e && |w'| == e + cut.Extra() + cut.Size()
    && (forall x | 0 <= x < e && x != q :: w'[x] == w[x])
    && InRange(e - q - 1) && w'[q] == Encode(TagPointer(cut, e - q - 1))
    && (cut.Composite? ==> w'[e] == CompositeTag(cut.n, cut.dw, cut.pw))
    && CopiedTo(m, p, w', e, p.shape.Elems(), 0)
  }

  /** Makes room for the object and puts everything in place but its pointers. */
  method EmitFront(c: Capn, p: Ptr, cut: Shape, ds: Segment, q: nat) returns (ok: bool, e: nat)
    requires Apart(c, ds) && Object(c.Mem(), p) && cut == CutOf(c.Mem(), p) && q < ds.len
    modifies ds`len, ds.data
    ensures Apart(c, ds) && c.Mem() == old(c.Mem()) && old(ds.len) <= ds.len && e == old(ds.len)
    ensures ok <==> e + cut.Extra() + cut.Size() <= ds.cap && InRange(e - q - 1)
    ensures ok ==> ds.len == e + cut.Extra() + cut.Size()
    ensures ok ==> Fronted(c.Mem(), p, old(ds.Words()), ds.Words(), q)
  {
    hide CutOf, Object, MemOf, CopiedTo, TagPointer, Encode, CompositeTag, Shape.Size;
    ghost var was := ds.Words();
    ok, e := Alloc(c, ds, cut.Extra() + cut.Size());
    if !ok {
      return;
    }
    var tag;
    ok, tag := TagValue(cut, e - q - 1);
    if !ok {
      return;
    }
    assert forall x | 0 <= x < e :: ds.Words()[x] == ds.Words()[..e][x];
    SetWordAt(c, ds, q, tag);
    if cut.Composite? {
      SetWordAt(c, ds, e, CompositeTag(cut.n, cut.dw, cut.pw));
    }
    CopyData(c, p, cut, ds, e);
  }

  /** What KidsReady says about the room. */
  lemma KidsFit(m: Mem, p: Ptr, rem: nat, path: set<Key>, used: nat, limit: nat, len: nat, cap: nat)
    requires Object(m, p)
    ensures var cut := CutOf(m, p);
      KidsReady(m, p, rem, path, used, limit, len, cap) ==> len + cut.Extra() + cut.Size() <= cap && len <= MAX_WORDS
  {
    hide Object, CutOf, Spent;
    FoundFits(m, p, rem, path);
  }

  lemma HollowEmitted(m: Mem, p: Ptr, rem: nat, path: set<Key>, was: seq<word>, q: nat, tag: word, used: nat,
      limit: nat, cap: nat)
    requires Object(m, p) && CutOf(m, p).EmptyStruct() && q < |was| && tag == Encode(TagPointer(CutOf(m, p), -1))
    ensures Spent(m, p, rem, path, p.shape.Elems(), 0) == 0
    ensures KidsReady(m, p, rem, path, used, limit, |was|, cap) ==>
      Emitted(was, PutWord(was, q, tag), q, Found(m, p, rem, path))
  {
    HollowIs(m, p, rem, path);
    hide *;
    HollowPut(Found(m, p, rem, path), was, q, tag);
    if KidsReady(m, p, rem, path, used, limit, |was|, cap) {
      HollowReady(m, p, rem, path, used, limit, |was|, cap);
    }
  }

  lemma HollowEnough(m: Mem, p: Ptr, rem: nat, path: set<Key>, used: nat, limit: nat)
    requires Object(m, p) && CutOf(m, p).EmptyStruct()
    ensures KidsEnough(m, p, rem, path, used, used, limit, 0)
    ensures CutOf(m, p).Extra() + CutOf(m, p).Size() == 0
  {
    NoSpots(m, p, rem, path);
    hide Object, CutOf, Child, Rows;
  }

  lemma HollowReady(m: Mem, p: Ptr, rem: nat, path: set<Key>, used: nat, limit: nat, len: nat, cap: nat)
    requires Object(m, p) && KidsReady(m, p, rem, path, used, limit, len, cap)
    ensures len <= MAX_WORDS
  {
    hide Object, Found, AllSeen, Spent;
  }

  lemma HollowIs(m: Mem, p: Ptr, rem: nat, path: set<Key>)
    requires Object(m, p) && CutOf(m, p).EmptyStruct()
    ensures var v := Found(m, p, rem, path); v.Tree? && Good(v) && v.shape == CutOf(m, p) && Size(v) == 0
    ensures Spent(m, p, rem, path, p.shape.Elems(), 0) == 0
  {
    NoSpots(m, p, rem, path);
    FoundGood(m, p, rem, path);
    FoundSize(m, p, rem, path);
    FoundFits(m, p, rem, path);
    hide CutOf, Object, Rows, Good, Spent, AllSeen;
  }

  lemma HollowPut(v: Value, was: seq<word>, q: nat, tag: word)
    requires v.Tree? && Good(v) && v.shape.EmptyStruct() && Size(v) == 0 && q < |was|
      && tag == Encode(TagPointer(v.shape, -1))
    ensures |was| <= MAX_WORDS ==> Emitted(was, PutWord(was, q, tag), q, v)
  {
    hide Encode, TagPointer;
    if |was| <= MAX_WORDS {
      HollowLaid(PutWord(was, q, tag), v, |was|);
      hide Laid;
    }
  }

  lemma HollowLaid(w: seq<word>, v: Value, e: nat)
    requires Good(v) && IsEmpty(v) && e <= |w| <= MAX_WORDS && Size(v) == 0
    ensures Laid(w, v, e)
  {
    EmptyIs(v);
  }

  lemma FrontPartial(m: Mem, p: Ptr, rem: nat, path: set<Key>, w: seq<word>, w': seq<word>, q: nat, used: nat,
      limit: nat, cap: nat)
    requires Object(m, p) && Fronted(m, p, w, w', q)
    ensures KidsReady(m, p, rem, path, used, limit, |w|, cap) ==> Partial(w', Found(m, p, rem, path), |w|, 0, 0)
  {
    hide CutOf, Object, CopiedTo, Encode, TagPointer, CompositeTag, Partial, Found, AllSeen;
    if KidsReady(m, p, rem, path, used, limit, |w|, cap) {
      ObjectIsThere(m, p, rem, path, w', |w|);
    }
  }

  lemma ObjectEmitted(m: Mem, p: Ptr, rem: nat, path: set<Key>, w: seq<word>, w': seq<word>, w'': seq<word>, q: nat)
    requires Object(m, p) && Fronted(m, p, w, w', q) && !CutOf(m, p).EmptyStruct()
    ensures var v := Found(m, p, rem, path);
      Partial(w'', v, |w|, p.shape.Elems(), 0) && (forall x | 0 <= x < |w| :: w''[x] == w'[x]) ==> Emitted(w, w'', q, v)
  {
    var v := Found(m, p, rem, path);
    if Partial(w'', v, |w|, p.shape.Elems(), 0) {
      PartialEnds(w'', v, |w|);
      hide CutOf, Object, CopiedTo, Encode, TagPointer, CompositeTag, Laid, Good, Rows, Own;
    }
  }

  /** The loops over the pointers of an object, row by row. */
  method EmitKids(c: Capn, p: Ptr, cut: Shape, rem: nat, vs: VSet<Key>, ds: Segment, e: nat)
    returns (ok: bool, ghost n: nat)
    requires Apart(c, ds) && Object(c.Mem(), p) && cut == CutOf(c.Mem(), p) && vs.Valid()
    requires e + cut.Extra() + cut.Size() <= ds.len
    modifies c`traversalUsed, c`decodeErr, vs, vs.tab, ds`len, ds.data
    ensures Apart(c, ds) && c.Mem() == old(c.Mem()) && old(ds.len) <= ds.len
    ensures vs.Valid() && (vs.tab == old(vs.tab) || fresh(vs.tab)) && PathOf(vs) == old(PathOf(vs))
    ensures var path := old(PathOf(vs));
      && KidsReady(c.Mem(), p, rem, path, old(c.traversalUsed), c.traversalLimit, e, ds.cap)
      && Partial(old(ds.Words()), Found(c.Mem(), p, rem, path), e, 0, 0) ==>
        ok && EmittedTo(c.Mem(), p, rem, path, old(ds.Words()), ds.Words(), e, p.shape.Elems(), 0,
          old(c.traversalUsed), c.traversalUsed)
    ensures ds.len == old(ds.len) + n
    ensures ok ==> KidsEnough(c.Mem(), p, rem, old(PathOf(vs)), old(c.traversalUsed), c.traversalUsed,
      c.traversalLimit, n)
    decreases rem, 1
  {
    hide VSet.Valid, PathOf, MemOf, Object, CutOf, KidsReady, Found, Spent, Partial, EmittedTo, Emitted, Shape.Size,
      Apart, At, PassedTo;
    ghost var m, path, was, used, limit, cap := c.Mem(), PathOf(vs), ds.Words(), c.traversalUsed, c.traversalLimit,
        ds.cap;
    ghost var ready := KidsReady(m, p, rem, path, used, limit, e, cap) && Partial(was, Found(m, p, rem, path), e, 0, 0);
    EmitStarts(m, p, rem, path, was, e, used);
    PassStarts(m, p, rem, path, used, limit);
    for i := 0 to p.shape.Elems()
      invariant Apart(c, ds) && c.Mem() == m && |was| <= ds.len
      invariant PassedTo(m, p, rem, path, i, 0, used, c.traversalUsed, limit, ds.len - |was|)
      invariant vs.Valid() && (vs.tab == old(vs.tab) || fresh(vs.tab)) && PathOf(vs) == path
      invariant ready ==> EmittedTo(m, p, rem, path, was, ds.Words(), e, i, 0, used, c.traversalUsed)
    {
      for j := 0 to cut.PtrWords()
        invariant Apart(c, ds) && c.Mem() == m && |was| <= ds.len
        invariant PassedTo(m, p, rem, path, i, j, used, c.traversalUsed, limit, ds.len - |was|)
        invariant vs.Valid() && (vs.tab == old(vs.tab) || fresh(vs.tab)) && PathOf(vs) == path
        invariant ready ==> EmittedTo(m, p, rem, path, was, ds.Words(), e, i, j, used, c.traversalUsed)
      {
        ok := EmitChildOf(c, p, cut, i, j, rem, vs, ds, e, was, used);
        n := ds.len - |was|;
        if !ok {
          return;
        }
      }
      PassRow(m, p, rem, path, i, used, c.traversalUsed, limit, ds.len - |was|);
      EmitRow(m, p, rem, path, was, ds.Words(), e, i, used, c.traversalUsed);
    }
    ok, n := true, ds.len - |was|;
  }

  /** The child of pointer (i, j), as one step of the loops. */
  method EmitChildOf(c: Capn, p: Ptr, cut: Shape, i: nat, j: nat, rem: nat, vs: VSet<Key>, ds: Segment, e: nat,
                     ghost was: seq<word>, ghost used: nat) returns (ok: bool)
    requires Apart(c, ds) && Object(c.Mem(), p) && cut == CutOf(c.Mem(), p) && vs.Valid()
    requires e + cut.Extra() + cut.Size() <= ds.len && i < p.shape.Elems() && j < cut.PtrWords() && |was| <= ds.len
    modifies c`traversalUsed, c`decodeErr, vs, vs.tab, ds`len, ds.data
    ensures Apart(c, ds) && c.Mem() == old(c.Mem()) && old(ds.len) <= ds.len
    ensures vs.Valid() && (vs.tab == old(vs.tab) || fresh(vs.tab)) && PathOf(vs) == old(PathOf(vs))
    ensures var path := old(PathOf(vs));
      && KidsReady(c.Mem(), p, rem, path, used, c.traversalLimit, e, ds.cap)
      && EmittedTo(c.Mem(), p, rem, path, was, old(ds.Words()), e, i, j, used, old(c.traversalUsed)) ==>
        ok && EmittedTo(c.Mem(), p, rem, path, was, ds.Words(), e, i, j + 1, used, c.traversalUsed)
    ensures var path, limit := old(PathOf(vs)), c.traversalLimit;
      ok && PassedTo(c.Mem(), p, rem, path, i, j, used, old(c.traversalUsed), limit, old(ds.len) - |was|) ==>
        PassedTo(c.Mem(), p, rem, path, i, j + 1, used, c.traversalUsed, limit, ds.len - |was|)
    decreases rem, 0, 1
  {
    hide VSet.Valid, PathOf, MemOf, Object, CutOf, KidsReady, EmittedTo, Emitted, Shape.Size, Apart, At, Ready, Child;
    hide PassedTo, Enough;
    ghost var m, path, w, spent := c.Mem(), PathOf(vs), ds.Words(), c.traversalUsed;
    EmitNext(m, p, rem, path, was, w, e, i, j, used, spent, c.traversalLimit, ds.cap);
    ok := EmitChild(c, p, i, j, rem, vs, ds, At(cut, e, i, cut.DataWords() + j));
    EmitStep(m, p, rem, path, was, w, ds.Words(), e, i, j, used, spent);
    if ok && PassedTo(m, p, rem, path, i, j, used, spent, c.traversalLimit, |w| - |was|) {
      PassStep(m, p, rem, path, i, j, used, spent, c.traversalUsed, c.traversalLimit, |w| - |was|, |w|, ds.len);
    }
  }

  /** How far the emission of an object's children has come. */
  ghost predicate EmittedTo(m: Mem, p: Ptr, rem: nat, path: set<Key>, was: seq<word>, w: seq<word>, e: nat, i: nat,
      j: nat, used: nat, used': nat)
    requires Object(m, p)
  {
    && Spot(m, p, i, j) && Partial(w, Found(m, p, rem, path), e, i, j)
    && e <= |was| <= |w| && (forall x | 0 <= x < e :: w[x] == was[x])
    && used' == used + Spent(m, p, rem, path, i, j)
  }

  lemma EmitStarts(m: Mem, p: Ptr, rem: nat, path: set<Key>, was: seq<word>, e: nat, used: nat)
    requires Object(m, p) && e <= |was|
    ensures Partial(was, Found(m, p, rem, path), e, 0, 0) ==> EmittedTo(m, p, rem, path, was, was, e, 0, 0, used, used)
  {
    hide CutOf, Object, Found, Partial, Child;
  }

  /** The next child is within the limit and has room. */
  lemma EmitNext(m: Mem, p: Ptr, rem: nat, path: set<Key>, was: seq<word>, w: seq<word>, e: nat, i: nat, j: nat,
                 used: nat, used': nat, limit: nat, cap: nat)
    requires Object(m, p) && i < p.shape.Elems() && j < CutOf(m, p).PtrWords()
    ensures KidsReady(m, p, rem, path, used, limit, e, cap) && EmittedTo(m, p, rem, path, was, w, e, i, j, used,
      used') ==>
      Ready(Child(m, p, i, j, rem, path), used', limit, |w|, cap)
  {
    hide CutOf, Object, Child, Rows, Own, LaidKid, Good;
    if KidsReady(m, p, rem, path, used, limit, e, cap) && EmittedTo(m, p, rem, path, was, w, e, i, j, used, used') {
      var v := Found(m, p, rem, path);
      FoundFits(m, p, rem, path);
      assert InGrid(v, i, j);
      FoundKid(m, p, rem, path, i, j);
      KidInside(v, e, i, j);
      SpentGrows(m, p, rem, path, i, j, p.shape.Elems(), 0);
      PaysSum(used, Spent(m, p, rem, path, i, j), Fee(Child(m, p, i, j, rem, path)), limit);
    }
  }

  lemma EmitStep(m: Mem, p: Ptr, rem: nat, path: set<Key>, was: seq<word>, w: seq<word>, w': seq<word>, e: nat,
      i: nat, j: nat, used: nat, used': nat)
    requires Object(m, p) && i < p.shape.Elems() && j < CutOf(m, p).PtrWords()
    ensures var k, q := Child(m, p, i, j, rem, path), At(CutOf(m, p), e, i, CutOf(m, p).DataWords() + j);
      k.Seen? && EmittedTo(m, p, rem, path, was, w, e, i, j, used, used') && Emitted(w, w', q, k.v) ==>
        EmittedTo(m, p, rem, path, was, w', e, i, j + 1, used, used' + k.cost)
  {
    hide CutOf, Object, Child, Rows, Own, LaidKid, Good, At;
    var k, q, v := Child(m, p, i, j, rem, path), At(CutOf(m, p), e, i, CutOf(m, p).DataWords() + j),
      Found(m, p, rem, path);
    if k.Seen? && EmittedTo(m, p, rem, path, was, w, e, i, j, used, used') && Emitted(w, w', q, k.v) {
      FoundFits(m, p, rem, path);
      assert InGrid(v, i, j);
      FoundKid(m, p, rem, path, i, j);
      hide Found, Emitted, Partial;
      PartialStep(w, w', v, e, i, j);
      SlotBehindStart(v, e, i, j, q);
      assert |w'| >= |w| by {
        EmittedGrows(w, w', q, k.v);
      }
    }
  }

  lemma EmittedGrows(w: seq<word>, w': seq<word>, q: nat, v: Value)
    requires Emitted(w, w', q, v)
    ensures |w'| >= |w| && forall x | 0 <= x < |w| && x != q :: w'[x] == w[x]
  {
  }

  lemma SlotBehindStart(v: Value, e: nat, i: nat, j: nat, q: nat)
    requires InGrid(v, i, j) && Fits(v) && q == SlotAt(v, e, i, j)
    ensures e <= q
  {
  }

  lemma EmitRow(m: Mem, p: Ptr, rem: nat, path: set<Key>, was: seq<word>, w: seq<word>, e: nat, i: nat, used: nat,
      used': nat)
    requires Object(m, p) && i < p.shape.Elems()
    ensures EmittedTo(m, p, rem, path, was, w, e, i, CutOf(m, p).PtrWords(), used, used') ==>
      EmittedTo(m, p, rem, path, was, w, e, i + 1, 0, used, used')
  {
    hide CutOf, Object, Child, Rows, Partial;
    if EmittedTo(m, p, rem, path, was, w, e, i, CutOf(m, p).PtrWords(), used, used') {
      FoundFits(m, p, rem, path);
      PartialRow(w, Found(m, p, rem, path), e, i);
    }
  }

  lemma EmitEnds(m: Mem, p: Ptr, rem: nat, path: set<Key>, was: seq<word>, w: seq<word>, e: nat, used: nat, used': nat)
    requires Object(m, p)
    ensures EmittedTo(m, p, rem, path, was, w, e, p.shape.Elems(), 0, used, used') ==>
      && Partial(w, Found(m, p, rem, path), e, p.shape.Elems(), 0)
      && e <= |was| <= |w| && (forall x | 0 <= x < e :: w[x] == was[x])
      && used' == used + Spent(m, p, rem, path, p.shape.Elems(), 0)
  {
    hide Partial, Spent, Found, CutOf, Object;
  }

  /** load_child and the emission of what it loaded. */
  method EmitChild(c: Capn, p: Ptr, i: nat, j: nat, rem: nat, vs: VSet<Key>, ds: Segment, q: nat) returns (ok: bool)
    requires Apart(c, ds) && Object(c.Mem(), p) && i < p.shape.Elems() && j < p.shape.PtrWords() && vs.Valid()
      && q < ds.len
    modifies c`traversalUsed, c`decodeErr, vs, vs.tab, ds`len, ds.data
    ensures Apart(c, ds) && c.Mem() == old(c.Mem()) && old(ds.len) <= ds.len
    ensures vs.Valid() && (vs.tab == old(vs.tab) || fresh(vs.tab)) && PathOf(vs) == old(PathOf(vs))
    ensures var w := Child(c.Mem(), p, i, j, rem, old(PathOf(vs)));
      Ready(w, old(c.traversalUsed), c.traversalLimit, old(ds.len), ds.cap) ==>
        ok && Emitted(old(ds.Words()), ds.Words(), q, w.v) && c.traversalUsed == old(c.traversalUsed) + w.cost
    ensures ok ==> Enough(Child(c.Mem(), p, i, j, rem, old(PathOf(vs))), old(c.traversalUsed), c.traversalUsed,
      c.traversalLimit, old(ds.len), ds.len)
    decreases rem, 0, 0
  {
    hide VSet.Valid, PathOf, MemOf, Object, Walk, Loaded, Child, Ready, Cost, Sound, Emitted, Enough, Pays;
    ghost var m, path, used := c.Mem(), PathOf(vs), c.traversalUsed;
    ChildReady(c.Mem(), p, i, j, rem, PathOf(vs), c.traversalUsed, c.traversalLimit, ds.len, ds.cap);
    var ch;
    ok, ch := LoadChild(c, p, i, j, rem);
    if ok {
      ghost var len := ds.len;
      ok := Emit(c, ch, rem - 1, vs, ds, q);
      if ok {
        ChildEnough(m, p, i, j, rem, path, used, c.traversalUsed, c.traversalLimit, len, ds.len);
      }
    }
  }

  lemma ChildEnough(m: Mem, p: Ptr, i: nat, j: nat, rem: nat, path: set<Key>, used: nat, used': nat, limit: nat,
      len: nat, len': nat)
    requires Object(m, p) && i < p.shape.Elems() && j < p.shape.PtrWords() && Loaded(m, p, i, j, rem).Got? && rem > 0
    requires var r := Loaded(m, p, i, j, rem);
      && Pays(used, Cost(r.p), limit)
      && Enough(Walk(m, r.p, rem - 1, path), used + Cost(r.p), used', limit, len, len')
    ensures Enough(Child(m, p, i, j, rem, path), used, used', limit, len, len')
  {
    hide Object, Target, Col, Bytes, Size;
    var r := Loaded(m, p, i, j, rem);
    var u := Walk(m, r.p, rem - 1, path);
    if r.p == Null {
      assert Walk(m, Null, rem - 1, path) == Seen(Nil, 0) && Cost(Null) == 0;
    }
    hide Walk, Sound, Cost;
    PaysSum(used, Cost(r.p), u.cost, limit);
    assert Child(m, p, i, j, rem, path) == Seen(u.v, Cost(r.p) + u.cost);
  }

  lemma ChildReady(m: Mem, p: Ptr, i: nat, j: nat, rem: nat, path: set<Key>, used: nat, limit: nat, len: nat, cap: nat)
    requires Object(m, p) && i < p.shape.Elems() && j < p.shape.PtrWords()
    ensures var w, r := Child(m, p, i, j, rem, path), Loaded(m, p, i, j, rem);
      && (Ready(w, used, limit, len, cap) ==> r.Got? && Pays(used, Cost(r.p), limit))
      && (r.Got? ==>
        && rem > 0
        && var u := Walk(m, r.p, rem - 1, path);
        && (u.Seen? ==> w == Seen(u.v, Cost(r.p) + u.cost))
        && (Ready(w, used, limit, len, cap) ==> Ready(u, used + Cost(r.p), limit, len, cap)))
  {
    hide Object, Target, Col, Bytes, Size;
    var w, r := Child(m, p, i, j, rem, path), Loaded(m, p, i, j, rem);
    if r.Got? {
      if r.p == Null {
        assert Walk(m, Null, rem - 1, path) == Seen(Nil, 0) && Cost(Null) == 0;
      }
      hide Walk, Sound, Cost;
      if w.Seen? {
        PaysSum(used, Cost(r.p), w.cost - Cost(r.p), limit);
      }
    }
  }
}
