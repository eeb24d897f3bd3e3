/**
 The first pass of capn_canonicalize: canon_measure, with the truncation and the loading of children that
 both passes share.
 */
module CanonMeasure {
  import opened Wire
  import opened Arena
  import opened Pointers
  import opened VisitedSet
  import opened CanonValue
  import opened CanonSource
  import opened CanonAgain

  // ---- reading the source -------------------------------------------------------------------

  /** word_zero for column col of row i. */
  method WordAt(c: Capn, p: Ptr, i: nat, col: nat) returns (w: word)
    requires c.Valid() && Object(c.Mem(), p) && i < p.shape.Elems() && col < p.shape.Stride()
    ensures w == Col(c.Mem(), p, i, col)
  {
    ghost var a := Cell(c.Mem(), p, i, col);
    w := c.Fetch(p.seg, p.data + i * p.shape.Stride() + col);
  }

  /** The loops of trunc_data_words, trunc_ptr_words and trunc_composite: drop columns that are zero in every row. */
  method TrimColumns(c: Capn, p: Ptr, lo: nat, n: nat) returns (k: nat)
    requires c.Valid() && Object(c.Mem(), p) && lo + n <= p.shape.Stride()
    ensures k == Top(ZeroCols(c.Mem(), p, lo, n))
  {
    ghost var m := c.Mem();
    ghost var z := ZeroCols(m, p, lo, n);
    hide MemOf, Top, Col, Object, ZeroCols;
    k := n;
    while k > 0
      invariant k <= n && forall x | k <= x < n :: z[x]
    {
      var zero, i, col := true, 0, lo + k - 1;
      while zero && i < p.shape.Elems()
        invariant i <= p.shape.Elems() && (zero <==> forall a | 0 <= a < i :: Col(m, p, a, col) == 0)
      {
        var w := WordAt(c, p, i, col);
        zero := w == 0;
        i := i + 1;
      }
      assert z[k - 1] == ZeroCol(m, p, col);
      if !zero {
        break;
      }
      k := k - 1;
    }
    TopIs(z, k);
  }

  /** The truncated shape of a struct or of a composite list; other lists stay as they are. */
  method Truncate(c: Capn, p: Ptr) returns (cut: Shape)
    requires c.Valid() && Object(c.Mem(), p)
    ensures cut == CutOf(c.Mem(), p)
  {
    hide Top, ZeroCols, Object;
    cut := p.shape;
    if p.shape.Struct? || p.shape.Composite? {
      var dw := TrimColumns(c, p, 0, p.shape.dw);
      var pw := TrimColumns(c, p, p.shape.dw, p.shape.pw);
      cut := if p.shape.Struct? then Struct(dw, pw) else Composite(p.shape.n, dw, pw);
    }
  }

  /** Charges of `cost` are within the limit when `used` is used already. */
  predicate Pays(used: nat, cost: nat, limit: nat) { cost == 0 || used + cost <= limit }

  /** The child itself, or nothing where load_child fails. */
  ghost function Loaded(m: Mem, p: Ptr, i: nat, j: nat, rem: nat): (r: Read)
    requires Object(m, p) && i < p.shape.Elems() && j < p.shape.PtrWords()
    ensures r.Got? ==> Sound(m, r.p)
  {
    if rem == 0 then Broken
    else if Col(m, p, i, p.shape.DataWords() + j) == 0 then Got(Null)
    else if Target(m, p, i, j) == Got(Null) then Broken
    else Target(m, p, i, j)
  }

  lemma SlotIs(m: Mem, p: Ptr, i: nat, j: nat)
    requires Object(m, p) && i < p.shape.Elems() && j < p.shape.PtrWords()
    ensures p.seg < |m| && Target(m, p, i, j) == ReadSlot(m, p.seg,
      p.data + i * p.shape.Stride() + p.shape.DataWords() + j)
  {
  }

  /** load_child: a zero word is null; any other word must be read as something. */
  method LoadChild(c: Capn, p: Ptr, i: nat, j: nat, rem: nat) returns (ok: bool, ch: Ptr)
    requires c.Valid() && Object(c.Mem(), p) && i < p.shape.Elems() && j < p.shape.PtrWords()
    modifies c`traversalUsed, c`decodeErr
    ensures var r := Loaded(c.Mem(), p, i, j, rem);
      ok <==> r.Got? && Pays(old(c.traversalUsed), Cost(r.p), c.traversalLimit)
    ensures ok ==> Loaded(c.Mem(), p, i, j, rem) == Got(ch) && c.traversalUsed == old(c.traversalUsed) + Cost(ch)
  {
    hide ReadSlot, MemOf, Bytes, Target, Col, Inside, Readable, Cell, Object, Sound;
    SlotIs(c.Mem(), p, i, j);
    if rem == 0 {
      return false, Null;
    }
    var w := WordAt(c, p, i, p.shape.DataWords() + j);
    if w == 0 {
      return true, Null;
    }
    ch := c.ReadPtr(p.seg, p.data + i * p.shape.Stride() + p.shape.DataWords() + j, rem);
    ok := ch != Null;
  }

  // ---- the path of the traversal ------------------------------------------------------------

  ghost function OnPath(marks: map<Key, Mark>): set<Key> { set k | k in marks && marks[k] == Path }

  ghost function PathOf(vs: VSet<Key>): set<Key>
    reads vs, vs.tab
  {
    OnPath(vs.Map())
  }

  /** vset_reenter, seen as a set of the objects on the path. */
  method EnterPath(vs: VSet<Key>, k: Key) returns (cycle: bool)
    requires vs.Valid()
    modifies vs, vs.tab
    ensures vs.Valid() && (vs.tab == old(vs.tab) || fresh(vs.tab))
    ensures cycle <==> k in old(PathOf(vs))
    ensures PathOf(vs) == if cycle then old(PathOf(vs)) else old(PathOf(vs)) + {k}
  {
    hide VSet.Valid, VSet.Map;
    var e := vs.Reenter(k);
    cycle := e == Cycle;
  }

  method LeavePath(vs: VSet<Key>, k: Key)
    requires vs.Valid()
    modifies vs, vs.tab
    ensures vs.Valid() && vs.tab == old(vs.tab) && PathOf(vs) == old(PathOf(vs)) - {k}
  {
    hide VSet.Valid, VSet.Map;
    vs.Leave(k);
  }

  // ---- the first pass -----------------------------------------------------------------------

  /** canon_add is called for every object but an empty struct. */
  predicate Bulk(v: Value) { v.Tree? && !IsEmpty(v) }

  /** What measuring succeeds on: `used` of the limit is spent on reading, `total` bytes are needed so far. */
  ghost predicate Measured(w: Walked, used: nat, total: nat, limit: nat)
    ensures Measured(w, used, total, limit) ==> w.Seen?
  {
    w.Seen? && Pays(used, w.cost, limit) && (Bulk(w.v) ==> total + 8 * Size(w.v) <= limit)
  }

  lemma PaysSum(used: nat, a: nat, b: nat, limit: nat)
    ensures Pays(used, a + b, limit) <==> Pays(used, a, limit) && Pays(used + a, b, limit)
  {
  }

  ghost predicate SeenTo(m: Mem, p: Ptr, rem: nat, path: set<Key>, i: nat, j: nat)
    requires Object(m, p)
  {
    forall a, b | 0 <= a < p.shape.Elems() && 0 <= b < CutOf(m, p).PtrWords() && Earlier(a, b, i, j) ::
      Child(m, p, a, b, rem, path).Seen?
  }

  /** A position in the order of an object's pointers. */
  ghost predicate Spot(m: Mem, p: Ptr, i: nat, j: nat)
    requires Object(m, p)
  {
    i <= p.shape.Elems() && j <= CutOf(m, p).PtrWords() && (j > 0 ==> i < p.shape.Elems())
  }

  /** The words of what the pointers before (i, j) lead to. */
  ghost function Put(m: Mem, p: Ptr, rem: nat, path: set<Key>, i: nat, j: nat): nat
    requires Object(m, p) && Spot(m, p, i, j)
  {
    FoundFits(m, p, rem, path);
    Before(Found(m, p, rem, path), i, j)
  }

  /** How far the measuring of an object's children has come. */
  ghost predicate MeasuredTo(m: Mem, p: Ptr, rem: nat, path: set<Key>, i: nat, j: nat, used: nat, used': nat,
      total: nat, total': nat, limit: nat)
    requires Object(m, p)
  {
    && Spot(m, p, i, j) && SeenTo(m, p, rem, path, i, j)
    && used' == used + Spent(m, p, rem, path, i, j) && Pays(used, Spent(m, p, rem, path, i, j), limit)
    && total' == total + 8 * Put(m, p, rem, path, i, j) <= limit
  }

  lemma MeasureStep(m: Mem, p: Ptr, rem: nat, path: set<Key>, i: nat, j: nat, used: nat, used': nat, total: nat,
      total': nat, limit: nat)
    requires Object(m, p) && MeasuredTo(m, p, rem, path, i, j, used, used', total, total', limit)
    requires i < p.shape.Elems() && j < CutOf(m, p).PtrWords()
    requires Measured(Child(m, p, i, j, rem, path), used', total', limit)
    ensures var w := Child(m, p, i, j, rem, path);
      MeasuredTo(m, p, rem, path, i, j + 1, used, used' + w.cost, total, total' + 8 * Size(w.v), limit)
  {
    hide Object, CutOf, Child;
    FoundFits(m, p, rem, path);
    var v := Found(m, p, rem, path);
    assert InGrid(v, i, j);
    FoundKid(m, p, rem, path, i, j);
    PaysSum(used, Spent(m, p, rem, path, i, j), Child(m, p, i, j, rem, path).cost, limit);
    NotBulk(Child(m, p, i, j, rem, path).v, m, p, i, j, rem, path);
    hide Found, Pays;
  }

  lemma NotBulk(k: Value, m: Mem, p: Ptr, i: nat, j: nat, rem: nat, path: set<Key>)
    requires Object(m, p) && i < p.shape.Elems() && j < p.shape.PtrWords() && k == Val(Child(m, p, i, j, rem, path))
    ensures !Bulk(k) ==> Size(k) == 0
  {
    ChildGood(m, p, i, j, rem, path);
    if IsEmpty(k) {
      EmptyIs(k);
      assert Before(k, 0, 0) == 0 && Before(k, 1, 0) == 0;
    }
  }

  lemma {:induction false} SpentGrows(m: Mem, p: Ptr, rem: nat, path: set<Key>, i: nat, j: nat, i': nat, j': nat)
    requires Object(m, p) && i < p.shape.Elems() && j < CutOf(m, p).PtrWords() && Spot(m, p, i', j')
      && Earlier(i, j, i', j')
    ensures Spent(m, p, rem, path, i, j) + Fee(Child(m, p, i, j, rem, path)) <= Spent(m, p, rem, path, i', j')
    decreases i', j'
  {
    hide Object, CutOf, Child;
    if j' > 0 {
      if !(i == i' && j == j' - 1) {
        SpentGrows(m, p, rem, path, i, j, i', j' - 1);
      }
    } else {
      SpentGrows(m, p, rem, path, i, j, i' - 1, CutOf(m, p).PtrWords());
    }
  }

  /** A child that cannot be measured is one too many for the whole object. */
  lemma MeasureStops(m: Mem, p: Ptr, rem: nat, path: set<Key>, i: nat, j: nat, used: nat, used': nat, total: nat,
      total': nat, limit: nat)
    requires Object(m, p) && MeasuredTo(m, p, rem, path, i, j, used, used', total, total', limit)
    requires i < p.shape.Elems() && j < CutOf(m, p).PtrWords()
    requires !Measured(Child(m, p, i, j, rem, path), used', total', limit)
    ensures !AllMeasured(m, p, rem, path, used, total, limit)
  {
    hide Object, CutOf, Child;
    if AllMeasured(m, p, rem, path, used, total, limit) {
      assert Child(m, p, i, j, rem, path).Seen?;
      SpentGrows(m, p, rem, path, i, j, p.shape.Elems(), 0);
      PaysSum(used, Spent(m, p, rem, path, i, j), Fee(Child(m, p, i, j, rem, path)), limit);
      FoundFits(m, p, rem, path);
      var v := Found(m, p, rem, path);
      assert InGrid(v, i, j);
      FoundKid(m, p, rem, path, i, j);
      BeforeGrows(v, i, j, |v.rows|, 0);
      hide Found, Bulk, AllSeen, Spent;
      assert false;
    }
  }

  ghost predicate AllMeasured(m: Mem, p: Ptr, rem: nat, path: set<Key>, used: nat, total: nat, limit: nat)
    requires Object(m, p)
  {
    && AllSeen(m, p, rem, path) && Pays(used, Spent(m, p, rem, path, p.shape.Elems(), 0), limit)
    && total + 8 * Put(m, p, rem, path, p.shape.Elems(), 0) <= limit
  }

  /**
   canon_measure: succeeds exactly when the traversal gets through and both the charges and the size stay
   within the limit; then `need` has grown by the size of the tree. The path is as it was either way.
   */
  method Measure(c: Capn, p: Ptr, rem: nat, vs: VSet<Key>, total: nat) returns (ok: bool, need: nat)
    requires c.Valid() && Sound(c.Mem(), p) && vs.Valid()
    modifies c`traversalUsed, c`decodeErr, vs, vs.tab
    ensures vs.Valid() && (vs.tab == old(vs.tab) || fresh(vs.tab)) && PathOf(vs) == old(PathOf(vs))
    ensures ok <==> Measured(Walk(c.Mem(), p, rem, old(PathOf(vs))), old(c.traversalUsed), total, c.traversalLimit)
    ensures ok ==> var w := Walk(c.Mem(), p, rem, old(PathOf(vs)));
      need == total + 8 * Size(w.v) && c.traversalUsed == old(c.traversalUsed) + w.cost
    decreases rem, 3
  {
    hide VSet.Valid, PathOf, MemOf, Object, ObjectMeasured, Walk, Measured, Size, Found, Spent, Sound;
    ghost var m, path, used, limit := c.Mem(), PathOf(vs), c.traversalUsed, c.traversalLimit;
    need := total;
    if !p.Obj? {
      WalkLeaf(m, p, rem, path, used, total, limit);
      return true, need;
    }
    WalkObject(m, p, rem, path, used, total, limit);
    var cycle := EnterPath(vs, KeyOf(p));
    if cycle {
      return false, need;
    }
    ok, need := MeasureObject(c, p, rem, vs, total);
    LeavePath(vs, KeyOf(p));
  }

  /** The measuring of an object that is on the path. */
  method MeasureObject(c: Capn, p: Ptr, rem: nat, vs: VSet<Key>, total: nat) returns (ok: bool, need: nat)
    requires c.Valid() && Object(c.Mem(), p) && vs.Valid()
    modifies c`traversalUsed, c`decodeErr, vs, vs.tab
    ensures vs.Valid() && (vs.tab == old(vs.tab) || fresh(vs.tab)) && PathOf(vs) == old(PathOf(vs))
    ensures ok <==> ObjectMeasured(c.Mem(), p, rem, old(PathOf(vs)), old(c.traversalUsed), total, c.traversalLimit)
    ensures ok ==> need == total + 8 * Size(Found(c.Mem(), p, rem, old(PathOf(vs))))
    ensures ok ==> c.traversalUsed == old(c.traversalUsed) + Spent(c.Mem(), p, rem, old(PathOf(vs)), p.shape.Elems(), 0)
    decreases rem, 2
  {
    hide VSet.Valid, PathOf, MemOf, Object, CutOf, AllMeasured, Size, Found, Put, Spent, Shape.Size, Shape.Extra,
      Shape.Elems, Spot;
    ghost var m, path, used, limit := c.Mem(), PathOf(vs), c.traversalUsed, c.traversalLimit;
    need := total;
    var cut := Truncate(c, p);
    FoundSize(m, p, rem, path);
    if cut.EmptyStruct() {
      return true, need;
    }
    var add := 8 * (cut.Extra() + cut.Size());
    ok := add <= c.traversalLimit && total <= c.traversalLimit - add;
    if ok {
      ok, need := MeasureKids(c, p, cut, rem, vs, total + add);
    }
  }

  ghost predicate ObjectMeasured(m: Mem, p: Ptr, rem: nat, path: set<Key>, used: nat, total: nat, limit: nat)
    requires Object(m, p)
  {
    var cut := CutOf(m, p);
    var add := 8 * (cut.Extra() + cut.Size());
    cut.EmptyStruct() || (total + add <= limit && AllMeasured(m, p, rem, path, used, total + add, limit))
  }

  lemma FoundSize(m: Mem, p: Ptr, rem: nat, path: set<Key>)
    requires Object(m, p)
    ensures var cut := CutOf(m, p);
      && Spot(m, p, p.shape.Elems(), 0)
      && Size(Found(m, p, rem, path)) == cut.Extra() + cut.Size() + Put(m, p, rem, path, p.shape.Elems(), 0)
      && (cut.EmptyStruct() ==> Size(Found(m, p, rem, path)) == 0 && Spent(m, p, rem, path, p.shape.Elems(), 0) == 0
                                && AllSeen(m, p, rem, path))
  {
    FoundFits(m, p, rem, path);
    if CutOf(m, p).EmptyStruct() {
      NoSpots(m, p, rem, path);
    }
    PutIs(m, p, rem, path);
    hide CutOf, Rows, Object, Child, Spent, Before, Fits, AllSeen, Put;
  }

  lemma PutIs(m: Mem, p: Ptr, rem: nat, path: set<Key>)
    requires Object(m, p)
    ensures Spot(m, p, p.shape.Elems(), 0) && |Found(m, p, rem, path).rows| == p.shape.Elems()
    ensures Put(m, p, rem, path, p.shape.Elems(), 0) == Before(Found(m, p, rem, path), p.shape.Elems(), 0)
  {
    hide CutOf, Object, Child, Before, Rows;
  }

  lemma WalkLeaf(m: Mem, p: Ptr, rem: nat, path: set<Key>, used: nat, total: nat, limit: nat)
    requires Sound(m, p) && !p.Obj?
    ensures var w := Walk(m, p, rem, path); Measured(w, used, total, limit) && Size(w.v) == 0 && w.cost == 0
  {
  }

  lemma WalkIs(m: Mem, p: Ptr, rem: nat, path: set<Key>)
    requires Sound(m, p) && p.Obj?
    ensures Object(m, p)
    ensures var inner := path + {KeyOf(p)};
      Walk(m, p, rem, path) == if KeyOf(p) in path || !AllSeen(m, p, rem, inner) then Stuck
        else Seen(Found(m, p, rem, inner), Spent(m, p, rem, inner, p.shape.Elems(), 0))
  {
  }

  /** The conditions of an object, in terms of those on the path. */
  lemma WalkObject(m: Mem, p: Ptr, rem: nat, path: set<Key>, used: nat, total: nat, limit: nat)
    requires Sound(m, p) && p.Obj?
    ensures Object(m, p)
    ensures var inner, w := path + {KeyOf(p)}, Walk(m, p, rem, path);
      && (KeyOf(p) in path ==> !Measured(w, used, total, limit))
      && (KeyOf(p) !in path ==>
        && (Measured(w, used, total, limit) <==> ObjectMeasured(m, p, rem, inner, used, total, limit))
        && (w.Seen? ==> w.v == Found(m, p, rem, inner) && w.cost == Spent(m, p, rem, inner, p.shape.Elems(), 0)))
  {
    hide *;
    WalkIs(m, p, rem, path);
    ObjectMeasuredIs(m, p, rem, path + {KeyOf(p)}, used, total, limit);
  }

  lemma ObjectMeasuredIs(m: Mem, p: Ptr, rem: nat, path: set<Key>, used: nat, total: nat, limit: nat)
    requires Object(m, p)
    ensures ObjectMeasured(m, p, rem, path, used, total, limit) <==>
      AllSeen(m, p, rem, path) &&
      Measured(Seen(Found(m, p, rem, path), Spent(m, p, rem, path, p.shape.Elems(), 0)), used, total, limit)
  {
    hide CutOf, Rows, Object, Child, Spent, Size, Put, Spot, AllSeen, Shape.Size, Shape.Extra, Shape.Elems;
    FoundSize(m, p, rem, path);
  }

  lemma NoSpots(m: Mem, p: Ptr, rem: nat, path: set<Key>)
    requires Object(m, p) && CutOf(m, p).EmptyStruct()
    ensures AllSeen(m, p, rem, path) && p.shape.Elems() == 1
    ensures Spot(m, p, 1, 0) && Spent(m, p, rem, path, 1, 0) == 0 && Put(m, p, rem, path, 1, 0) == 0
  {
    hide CutOf, Object;
    FoundFits(m, p, rem, path);
    assert Spent(m, p, rem, path, 0, 0) == 0;
    var v := Found(m, p, rem, path);
    assert Before(v, 0, 0) == 0;
    hide Rows;
  }

  /** The loops over the pointers of an object, row by row. */
  method MeasureKids(c: Capn, p: Ptr, cut: Shape, rem: nat, vs: VSet<Key>, total: nat) returns (ok: bool, need: nat)
    requires c.Valid() && Object(c.Mem(), p) && cut == CutOf(c.Mem(), p) && vs.Valid() && total <= c.traversalLimit
    modifies c`traversalUsed, c`decodeErr, vs, vs.tab
    ensures vs.Valid() && (vs.tab == old(vs.tab) || fresh(vs.tab)) && PathOf(vs) == old(PathOf(vs))
    ensures ok <==> AllMeasured(c.Mem(), p, rem, old(PathOf(vs)), old(c.traversalUsed), total, c.traversalLimit)
    ensures ok ==> need == total + 8 * Put(c.Mem(), p, rem, old(PathOf(vs)), p.shape.Elems(), 0)
    ensures ok ==> c.traversalUsed == old(c.traversalUsed) + Spent(c.Mem(), p, rem, old(PathOf(vs)), p.shape.Elems(), 0)
    decreases rem, 1
  {
    hide VSet.Valid, PathOf, MemOf, Object, CutOf, AllMeasured, MeasuredTo, Walk, Measured, Capn.Valid;
    ghost var m, path, used, limit := c.Mem(), PathOf(vs), c.traversalUsed, c.traversalLimit;
    need := total;
    MeasureStarts(m, p, rem, path, used, total, limit);
    for i := 0 to p.shape.Elems()
      invariant c.Valid() && c.Mem() == m && vs.Valid() && (vs.tab == old(vs.tab) || fresh(vs.tab))
        && PathOf(vs) == path
      invariant MeasuredTo(m, p, rem, path, i, 0, used, c.traversalUsed, total, need, limit)
    {
      for j := 0 to cut.PtrWords()
        invariant c.Valid() && c.Mem() == m && vs.Valid() && (vs.tab == old(vs.tab) || fresh(vs.tab))
          && PathOf(vs) == path
        invariant MeasuredTo(m, p, rem, path, i, j, used, c.traversalUsed, total, need, limit)
      {
        ghost var was, sofar := c.traversalUsed, need;
        ok, need := MeasureChild(c, p, i, j, rem, vs, need);
        if !ok {
          MeasureStops(m, p, rem, path, i, j, used, was, total, sofar, limit);
          return;
        }
        MeasureStep(m, p, rem, path, i, j, used, was, total, sofar, limit);
      }
      MeasureRow(m, p, rem, path, i, used, c.traversalUsed, total, need, limit);
    }
    MeasureEnds(m, p, rem, path, used, c.traversalUsed, total, need, limit);
    ok := true;
  }

  lemma MeasureStarts(m: Mem, p: Ptr, rem: nat, path: set<Key>, used: nat, total: nat, limit: nat)
    requires Object(m, p) && total <= limit
    ensures MeasuredTo(m, p, rem, path, 0, 0, used, used, total, total, limit)
  {
    FoundFits(m, p, rem, path);
    hide CutOf, Object, Rows;
  }

  lemma MeasureRow(m: Mem, p: Ptr, rem: nat, path: set<Key>, i: nat, used: nat, used': nat, total: nat, total': nat,
      limit: nat)
    requires Object(m, p) && i < p.shape.Elems()
    requires MeasuredTo(m, p, rem, path, i, CutOf(m, p).PtrWords(), used, used', total, total', limit)
    ensures MeasuredTo(m, p, rem, path, i + 1, 0, used, used', total, total', limit)
  {
    FoundFits(m, p, rem, path);
    hide CutOf, Object, Rows, Child;
  }

  lemma MeasureEnds(m: Mem, p: Ptr, rem: nat, path: set<Key>, used: nat, used': nat, total: nat, total': nat,
      limit: nat)
    requires Object(m, p) && MeasuredTo(m, p, rem, path, p.shape.Elems(), 0, used, used', total, total', limit)
    ensures Spot(m, p, p.shape.Elems(), 0) && AllMeasured(m, p, rem, path, used, total, limit)
    ensures total' == total + 8 * Put(m, p, rem, path, p.shape.Elems(), 0)
    ensures used' == used + Spent(m, p, rem, path, p.shape.Elems(), 0)
  {
    hide CutOf, Object, Found;
    forall a, b | 0 <= a < p.shape.Elems() && 0 <= b < CutOf(m, p).PtrWords() ensures Child(m, p, a, b, rem,
      path).Seen? {
      assert Earlier(a, b, p.shape.Elems(), 0);
    }
    assert AllSeen(m, p, rem, path);
  }

  /** load_child and the measuring of what it loaded. */
  method MeasureChild(c: Capn, p: Ptr, i: nat, j: nat, rem: nat, vs: VSet<Key>, total: nat) returns (ok: bool,
      need: nat)
    requires c.Valid() && Object(c.Mem(), p) && i < p.shape.Elems() && j < p.shape.PtrWords() && vs.Valid()
    modifies c`traversalUsed, c`decodeErr, vs, vs.tab
    ensures vs.Valid() && (vs.tab == old(vs.tab) || fresh(vs.tab)) && PathOf(vs) == old(PathOf(vs))
    ensures var w := Child(c.Mem(), p, i, j, rem, old(PathOf(vs)));
      ok <==> Measured(w, old(c.traversalUsed), total, c.traversalLimit)
    ensures ok ==> var w := Child(c.Mem(), p, i, j, rem, old(PathOf(vs)));
      need == total + 8 * Size(w.v) && c.traversalUsed == old(c.traversalUsed) + w.cost
    decreases rem, 0
  {
    hide VSet.Valid, PathOf, MemOf, Object, Walk, Capn.Valid, Loaded, Child, Measured, Cost, Sound;
    need := total;
    ghost var used := c.traversalUsed;
    ChildLoads(c.Mem(), p, i, j, rem, PathOf(vs), used, total, c.traversalLimit);
    var ch;
    ok, ch := LoadChild(c, p, i, j, rem);
    if ok {
      ok, need := Measure(c, ch, rem - 1, vs, total);
    }
  }

  /** The conditions of a child, in terms of what it is loaded as. */
  lemma ChildLoads(m: Mem, p: Ptr, i: nat, j: nat, rem: nat, path: set<Key>, used: nat, total: nat, limit: nat)
    requires Object(m, p) && i < p.shape.Elems() && j < p.shape.PtrWords()
    ensures var w, r := Child(m, p, i, j, rem, path), Loaded(m, p, i, j, rem);
      && (!(r.Got? && Pays(used, Cost(r.p), limit)) ==> !Measured(w, used, total, limit))
      && (r.Got? && Pays(used, Cost(r.p), limit) ==>
        && rem > 0
        && var u := Walk(m, r.p, rem - 1, path);
        && (Measured(w, used, total, limit) <==> Measured(u, used + Cost(r.p), total, limit))
        && (u.Seen? ==> w == Seen(u.v, Cost(r.p) + u.cost)))
  {
    hide Object, Target, Col, Bytes, Size, Bulk;
    var w, r := Child(m, p, i, j, rem, path), Loaded(m, p, i, j, rem);
    if r.Got? {
      if r.p == Null {
        assert Walk(m, Null, rem - 1, path) == Seen(Nil, 0) && Cost(Null) == 0;
      }
      hide Walk, Sound, Cost;
      if w.Seen? {
        PaysSum(used, Cost(r.p), w.cost - Cost(r.p), limit);
      }
    }
  }
}
