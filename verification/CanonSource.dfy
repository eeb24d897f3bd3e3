/**
 The tree that canonicalization makes of a message. `Walk` follows the source's traversal, with its
 truncation, its depth and its cycle check; `Meaning` decodes a message without any of that. What
 `Walk` finds is the truncation of what the message means.
 */
module CanonSource {
  import opened Wire
  import opened Arena
  import opened Pointers
  import opened CanonValue

  /** How much is left of a list of columns when the zero columns at its end are dropped. */
  function Top(zero: seq<bool>): (k: nat)
    ensures k <= |zero| && (k > 0 ==> !zero[k - 1]) && forall c | k <= c < |zero| :: zero[c]
  {
    if zero == [] then 0 else if zero[|zero| - 1] then Top(zero[..|zero| - 1]) else |zero|
  }

  lemma TopIs(zero: seq<bool>, k: nat)
    requires k <= |zero| && (k > 0 ==> !zero[k - 1]) && forall c | k <= c < |zero| :: zero[c]
    ensures Top(zero) == k
  {
  }

  // ---- truncation of a value ----------------------------------------------------------------

  function ZeroData(rows: seq<Row>, dw: nat): (z: seq<bool>)
    requires forall i | 0 <= i < |rows| :: |rows[i].data| == dw
    ensures |z| == dw
  {
    seq(dw, c requires 0 <= c < dw => forall i | 0 <= i < |rows| :: rows[i].data[c] == 0)
  }

  function NilKids(rows: seq<Row>, pw: nat): (z: seq<bool>)
    requires forall i | 0 <= i < |rows| :: |rows[i].kids| == pw
    ensures |z| == pw
  {
    seq(pw, c requires 0 <= c < pw => forall i | 0 <= i < |rows| :: rows[i].kids[c] == Nil)
  }

  /** Structs and composite lists lose their zero columns; lists of data and of pointers keep their length. */
  function CutTo(shape: Shape, zeroData: seq<bool>, zeroPtrs: seq<bool>): (cut: Shape) {
    match shape
    case Struct(_, _) => Struct(Top(zeroData), Top(zeroPtrs))
    case Composite(n, _, _) => Composite(n, Top(zeroData), Top(zeroPtrs))
    case _ => shape
  }

  lemma CutSmaller(shape: Shape, zeroData: seq<bool>, zeroPtrs: seq<bool>)
    requires |zeroData| == shape.DataWords() && |zeroPtrs| == shape.PtrWords()
    ensures var cut := CutTo(shape, zeroData, zeroPtrs);
      && cut.Elems() == shape.Elems() && cut.DataWords() <= shape.DataWords() && cut.PtrWords() <= shape.PtrWords()
      && (shape.Encodable() ==> cut.Encodable()) && (Readable(shape) ==> Readable(cut))
  {
    if shape.Composite? {
      var dw, pw := Top(zeroData), Top(zeroPtrs);
      assert shape.n * (dw + pw) <= shape.n * (shape.dw + shape.pw);
    }
    hide Top;
  }

  function Cut(v: Value): Shape
    requires v.Tree? && Fits(v)
  {
    CutTo(v.shape, ZeroData(v.rows, v.shape.DataWords()), NilKids(v.rows, v.shape.PtrWords()))
  }

  /** The canonical truncation of a value, all the way down. */
  function Trim(v: Value): Value
    requires Good(v)
    decreases v
  {
    if v.Tree? then
      CutSmaller(v.shape, ZeroData(v.rows, v.shape.DataWords()), NilKids(v.rows, v.shape.PtrWords()));
      var cut := Cut(v);
      Tree(cut, seq(|v.rows|, i requires 0 <= i < |v.rows| =>
        Row(v.rows[i].data[..cut.DataWords()],
            seq(cut.PtrWords(), j requires 0 <= j < cut.PtrWords() && InGrid(v, i, j) => Trim(Kid(v, i, j))))))
    else v
  }

  // ---- the objects of a message -------------------------------------------------------------

  /** An object pointer as read_ptr hands them out. */
  ghost predicate Object(m: Mem, p: Ptr)
    ensures Object(m, p) ==> p.Obj?
  {
    p.Obj? && Inside(m, p) && Readable(p.shape)
  }

  ghost predicate Sound(m: Mem, p: Ptr) {
    match p
    case Null => true
    case Cap(i) => i < B32
    case Obj(_, _, _, _) => Object(m, p)
  }

  lemma ReadsSound(m: Mem, s: nat, d: nat)
    requires s < |m|
    ensures match ReadSlot(m, s, d) case Broken => true case Got(p) => Sound(m, p)
  {
    hide Decode, Lo, Hi;
  }

  /** Where column c of row i is. */
  ghost function Cell(m: Mem, p: Ptr, i: nat, c: nat): (a: nat)
    requires Object(m, p) && i < p.shape.Elems() && c < p.shape.Stride()
    ensures p.data <= a < p.data + p.shape.Size() <= |m[p.seg]|
  {
    At(p.shape, p.data - p.shape.Extra(), i, c)
  }

  ghost function Col(m: Mem, p: Ptr, i: nat, c: nat): word
    requires Object(m, p) && i < p.shape.Elems() && c < p.shape.Stride()
  {
    m[p.seg][Cell(m, p, i, c)]
  }

  ghost predicate ZeroCol(m: Mem, p: Ptr, c: nat)
    requires Object(m, p) && c < p.shape.Stride()
  {
    forall i | 0 <= i < p.shape.Elems() :: Col(m, p, i, c) == 0
  }

  ghost function ZeroCols(m: Mem, p: Ptr, lo: nat, n: nat): (z: seq<bool>)
    requires Object(m, p) && lo + n <= p.shape.Stride()
    ensures |z| == n && forall c | 0 <= c < n :: z[c] == ZeroCol(m, p, lo + c)
  {
    seq(n, c requires 0 <= c < n => ZeroCol(m, p, lo + c))
  }

  /** trunc_data_words, trunc_ptr_words and trunc_composite: the shape without its zero columns. */
  ghost function CutOf(m: Mem, p: Ptr): (cut: Shape)
    requires Object(m, p)
    ensures cut.Elems() == p.shape.Elems() && cut.DataWords() <= p.shape.DataWords()
    ensures cut.PtrWords() <= p.shape.PtrWords() && cut.Encodable() && Readable(cut)
  {
    var zd, zp := ZeroCols(m, p, 0, p.shape.DataWords()), ZeroCols(m, p, p.shape.DataWords(), p.shape.PtrWords());
    CutSmaller(p.shape, zd, zp);
    CutTo(p.shape, zd, zp)
  }

  /** The first `dw` data words of row i; a data list ends with its last bit. */
  ghost function DataOf(m: Mem, p: Ptr, dw: nat, i: nat): (ws: seq<word>)
    requires Object(m, p) && i < p.shape.Elems() && dw <= p.shape.DataWords()
    requires p.shape.Prim? ==> dw == p.shape.DataWords()
    ensures |ws| == dw
  {
    var ws := seq(dw, c requires 0 <= c < dw => Col(m, p, i, c));
    if p.shape.Prim? then Mask(p.shape, ws) else ws
  }

  /** What pointer j of row i reads as. */
  ghost function Target(m: Mem, p: Ptr, i: nat, j: nat): (r: Read)
    requires Object(m, p) && i < p.shape.Elems() && j < p.shape.PtrWords()
    ensures r.Got? ==> Sound(m, r.p)
  {
    ReadsSound(m, p.seg, Cell(m, p, i, p.shape.DataWords() + j));
    ReadSlot(m, p.seg, Cell(m, p, i, p.shape.DataWords() + j))
  }

  // ---- the traversal ------------------------------------------------------------------------

  /** The outcome of a traversal: the tree and what reading it is charged. */
  datatype Walked = Stuck | Seen(v: Value, cost: nat)

  function Val(w: Walked): Value { if w.Seen? then w.v else Nil }
  function Fee(w: Walked): nat { if w.Seen? then w.cost else 0 }

  /** load_child, then the traversal of the child: a pointer that reads as null must be a zero word. */
  ghost function Child(m: Mem, p: Ptr, i: nat, j: nat, rem: nat, path: set<Key>): (w: Walked)
    requires Object(m, p) && i < p.shape.Elems() && j < p.shape.PtrWords()
    decreases rem, 0, 0, 0
  {
    if rem == 0 then Stuck
    else if Col(m, p, i, p.shape.DataWords() + j) == 0 then Seen(Nil, 0)
    else match Target(m, p, i, j)
      case Broken => Stuck
      case Got(q) =>
        if q == Null then Stuck
        else
          var w := Walk(m, q, rem - 1, path);
          if w == Stuck then Stuck else Seen(w.v, Cost(q) + w.cost)
  }

  /** canon_measure and canon_emit, as far as they read: an object on the path to itself is a cycle. */
  ghost function Walk(m: Mem, p: Ptr, rem: nat, path: set<Key>): (w: Walked)
    requires Sound(m, p)
    decreases rem, 2, 0, 0
  {
    match p
    case Null => Seen(Nil, 0)
    case Cap(i) => Seen(CapRef(i), 0)
    case Obj(_, _, shape, _) =>
      var cut, inner := CutOf(m, p), path + {KeyOf(p)};
      if KeyOf(p) in path || !AllSeen(m, p, rem, inner) then Stuck
      else Seen(Tree(cut, Rows(m, p, rem, inner)), Spent(m, p, rem, inner, shape.Elems(), 0))
  }

  ghost predicate AllSeen(m: Mem, p: Ptr, rem: nat, path: set<Key>)
    requires Object(m, p)
    decreases rem, 1, 0, 0
  {
    forall i, j | 0 <= i < p.shape.Elems() && 0 <= j < CutOf(m, p).PtrWords() :: Child(m, p, i, j, rem, path).Seen?
  }

  ghost function Rows(m: Mem, p: Ptr, rem: nat, path: set<Key>): (rows: seq<Row>)
    requires Object(m, p)
    ensures |rows| == p.shape.Elems()
    decreases rem, 1, 1, 0
  {
    seq(p.shape.Elems(), i requires 0 <= i < p.shape.Elems() => FoundRow(m, p, i, rem, path))
  }

  ghost function FoundRow(m: Mem, p: Ptr, i: nat, rem: nat, path: set<Key>): (row: Row)
    requires Object(m, p) && i < p.shape.Elems()
    ensures |row.data| == CutOf(m, p).DataWords() && |row.kids| == CutOf(m, p).PtrWords()
    decreases rem, 1, 0, 0
  {
    var cut := CutOf(m, p);
    Row(DataOf(m, p, cut.DataWords(), i),
        seq(cut.PtrWords(), j requires 0 <= j < cut.PtrWords() => Val(Child(m, p, i, j, rem, path))))
  }

  /** What reading the children before (i, j) is charged. */
  ghost function Spent(m: Mem, p: Ptr, rem: nat, path: set<Key>, i: nat, j: nat): nat
    requires Object(m, p) && i <= p.shape.Elems() && j <= CutOf(m, p).PtrWords() && (j > 0 ==> i < p.shape.Elems())
    decreases rem, 1, i, j
  {
    if j > 0 then Spent(m, p, rem, path, i, j - 1) + Fee(Child(m, p, i, j - 1, rem, path))
    else if i > 0 then Spent(m, p, rem, path, i - 1, CutOf(m, p).PtrWords())
    else 0
  }

  // ---- what a message means -----------------------------------------------------------------

  datatype Meaning = Unknown | Means(v: Value)

  function ValueOf(w: Meaning): Value { if w.Means? then w.v else Nil }

  /** The value of a pointer, every column of every object included; `depth` bounds the descent. */
  ghost function Decoded(m: Mem, p: Ptr, depth: nat): (w: Meaning)
    requires Sound(m, p)
    decreases depth, 2
  {
    match p
    case Null => Means(Nil)
    case Cap(i) => Means(CapRef(i))
    case Obj(_, _, shape, _) =>
      if forall i, j | 0 <= i < shape.Elems() && 0 <= j < shape.PtrWords() :: DecodedKid(m, p, i, j, depth).Means?
      then Means(Whole(m, p, depth)) else Unknown
  }

  ghost function Whole(m: Mem, p: Ptr, depth: nat): (v: Value)
    requires Object(m, p)
    ensures v.Tree? && v.shape == p.shape && |v.rows| == p.shape.Elems()
    decreases depth, 1, 1
  {
    Tree(p.shape, seq(p.shape.Elems(), i requires 0 <= i < p.shape.Elems() => WholeRow(m, p, i, depth)))
  }

  ghost function WholeRow(m: Mem, p: Ptr, i: nat, depth: nat): Row
    requires Object(m, p) && i < p.shape.Elems()
    decreases depth, 1, 0
  {
    Row(DataOf(m, p, p.shape.DataWords(), i),
        seq(p.shape.PtrWords(), j requires 0 <= j < p.shape.PtrWords() => ValueOf(DecodedKid(m, p, i, j, depth))))
  }

  ghost function DecodedKid(m: Mem, p: Ptr, i: nat, j: nat, depth: nat): (w: Meaning)
    requires Object(m, p) && i < p.shape.Elems() && j < p.shape.PtrWords()
    decreases depth, 0
  {
    if Col(m, p, i, p.shape.DataWords() + j) == 0 then Means(Nil)
    else if depth == 0 then Unknown
    else match Target(m, p, i, j)
      case Broken => Unknown
      case Got(q) => Decoded(m, q, depth - 1)
  }

  lemma NilGood()
    ensures Good(Nil) && Trim(Nil) == Nil
  {
  }

  lemma {:induction false} DecodedGood(m: Mem, p: Ptr, depth: nat)
    requires Sound(m, p)
    ensures Good(ValueOf(Decoded(m, p, depth)))
    decreases depth
  {
    if p.Obj? {
      var v := Whole(m, p, depth);
      WholeFits(m, p, depth);
      forall i, j | InGrid(v, i, j) ensures Good(Kid(v, i, j)) {
        WholeKid(m, p, depth, i, j);
        DecodedKidGood(m, p, i, j, depth);
      }
      hide Whole, DecodedKid, Fits, Mask, Object;
    }
  }

  lemma WholeFits(m: Mem, p: Ptr, depth: nat)
    requires Object(m, p)
    ensures var v := Whole(m, p, depth); v.shape.Encodable() && Readable(v.shape) && Fits(v)
    ensures var v := Whole(m, p, depth); p.shape.Prim? ==> v.rows[0].data == Mask(p.shape, v.rows[0].data)
  {
    hide DecodedKid;
    if p.shape.Prim? {
      MaskTwice(p.shape, seq(p.shape.DataWords(), c requires 0 <= c < p.shape.DataWords() => Col(m, p, 0, c)));
    }
  }

  lemma WholeKid(m: Mem, p: Ptr, depth: nat, i: nat, j: nat)
    requires Object(m, p) && InGrid(Whole(m, p, depth), i, j)
    ensures i < p.shape.Elems() && j < p.shape.PtrWords()
    ensures Kid(Whole(m, p, depth), i, j) == ValueOf(DecodedKid(m, p, i, j, depth))
  {
    hide DecodedKid;
  }

  lemma {:induction false} DecodedKidGood(m: Mem, p: Ptr, i: nat, j: nat, depth: nat)
    requires Object(m, p) && i < p.shape.Elems() && j < p.shape.PtrWords()
    ensures Good(ValueOf(DecodedKid(m, p, i, j, depth)))
    decreases depth, 0
  {
    hide Target, Object, Cell, Good, Decoded, Sound, Col;
    NilGood();
    if Col(m, p, i, p.shape.DataWords() + j) != 0 && depth > 0 && Target(m, p, i, j).Got? {
      DecodedGood(m, Target(m, p, i, j).p, depth - 1);
    }
  }

  /** The tree of an object that the traversal gets through. */
  ghost function Found(m: Mem, p: Ptr, rem: nat, path: set<Key>): Value
    requires Object(m, p)
  {
    Tree(CutOf(m, p), Rows(m, p, rem, path))
  }

  lemma {:induction false} WalkGood(m: Mem, p: Ptr, rem: nat, path: set<Key>)
    requires Sound(m, p) && Walk(m, p, rem, path).Seen?
    ensures Good(Walk(m, p, rem, path).v)
    decreases rem, 2
  {
    if p.Obj? {
      FoundGood(m, p, rem, path + {KeyOf(p)});
    }
  }

  lemma {:induction false} ChildGood(m: Mem, p: Ptr, i: nat, j: nat, rem: nat, path: set<Key>)
    requires Object(m, p) && i < p.shape.Elems() && j < p.shape.PtrWords()
    ensures Good(Val(Child(m, p, i, j, rem, path)))
    decreases rem, 0
  {
    hide Target, Object, Cell, Good, Walk, Col, CutOf, Cost, Sound, Inside;
    NilGood();
    if Child(m, p, i, j, rem, path).Seen? && Col(m, p, i, p.shape.DataWords() + j) != 0 {
      WalkGood(m, Target(m, p, i, j).p, rem - 1, path);
    }
  }

  /** Also for an object with children that the traversal does not get through: those count as null. */
  lemma {:induction false} FoundGood(m: Mem, p: Ptr, rem: nat, path: set<Key>)
    requires Object(m, p)
    ensures Good(Found(m, p, rem, path)) && Fits(Found(m, p, rem, path))
    decreases rem, 1
  {
    var v := Found(m, p, rem, path);
    FoundFits(m, p, rem, path);
    forall i, j | InGrid(v, i, j) ensures Good(Kid(v, i, j)) {
      FoundKid(m, p, rem, path, i, j);
      ChildGood(m, p, i, j, rem, path);
    }
    hide Found, Child, Fits, Mask, Object;
  }

  lemma FoundFits(m: Mem, p: Ptr, rem: nat, path: set<Key>)
    requires Object(m, p)
    ensures var v := Found(m, p, rem, path); v.Tree? && v.shape == CutOf(m, p) && Fits(v)
    ensures var v := Found(m, p, rem, path); p.shape.Prim? ==>
      v.shape == p.shape && v.rows[0].data == Mask(p.shape, v.rows[0].data)
  {
    assert p.shape.Prim? ==> CutOf(m, p) == p.shape && p.shape.Elems() == 1;
    hide Child, CutOf, Shape.Elems, Shape.PtrWords, Shape.DataWords, Cell, Object, Mask;
    assert Fits(Found(m, p, rem, path)) by {
      hide FoundRow;
    }
    if p.shape.Prim? {
      assert Found(m, p, rem, path).rows[0] == FoundRow(m, p, 0, rem, path);
      MaskTwice(p.shape, seq(p.shape.DataWords(), c requires 0 <= c < p.shape.DataWords() => Col(m, p, 0, c)));
    }
  }

  lemma FoundKid(m: Mem, p: Ptr, rem: nat, path: set<Key>, i: nat, j: nat)
    requires Object(m, p) && InGrid(Found(m, p, rem, path), i, j)
    ensures i < p.shape.Elems() && j < CutOf(m, p).PtrWords()
    ensures Kid(Found(m, p, rem, path), i, j) == Val(Child(m, p, i, j, rem, path))
  {
    hide Child, CutOf, Object, DataOf;
    assert Found(m, p, rem, path).rows[i] == FoundRow(m, p, i, rem, path);
  }

  // ---- canonical form is the truncated meaning ---------------------------------------------

  /** What the traversal finds is the truncation of what the message means. */
  lemma {:induction false} WalkMeans(m: Mem, p: Ptr, rem: nat, path: set<Key>)
    requires Sound(m, p) && Walk(m, p, rem, path).Seen?
    ensures Decoded(m, p, rem).Means? && Good(Decoded(m, p, rem).v)
    ensures Trim(Decoded(m, p, rem).v) == Walk(m, p, rem, path).v
    ensures Decoded(m, p, rem).v == Nil <==> p == Null
    decreases rem, 2
  {
    DecodedGood(m, p, rem);
    if p.Obj? {
      WholeMeans(m, p, rem, path + {KeyOf(p)});
      hide Good, Trim, Whole, AllSeen, CutOf, DecodedKid, Child, Object;
    }
  }

  lemma {:induction false} WholeMeans(m: Mem, p: Ptr, rem: nat, path: set<Key>)
    requires Object(m, p) && AllSeen(m, p, rem, path)
    ensures Decoded(m, p, rem) == Means(Whole(m, p, rem))
    ensures Good(Whole(m, p, rem)) && Trim(Whole(m, p, rem)) == Found(m, p, rem, path)
    decreases rem, 1
  {
    forall i, j | 0 <= i < p.shape.Elems() && 0 <= j < p.shape.PtrWords()
      ensures KidMeant(m, p, i, j, rem, path)
    {
      KidMeans(m, p, i, j, rem, path);
    }
    assert forall i, j | 0 <= i < p.shape.Elems() && 0 <= j < p.shape.PtrWords() ::
      KidMeant(m, p, i, j, rem, path) ==> DecodedKid(m, p, i, j, rem).Means?;
    assert Decoded(m, p, rem) == Means(Whole(m, p, rem)) by {
      hide KidMeant, DecodedKid, Whole, Object;
    }
    DecodedGood(m, p, rem);
    hide *;
    TrimIsFound(m, p, rem, path);
  }

  /** What is to be shown of each pointer of an object. */
  ghost predicate KidMeant(m: Mem, p: Ptr, i: nat, j: nat, rem: nat, path: set<Key>)
    requires Object(m, p) && i < p.shape.Elems() && j < p.shape.PtrWords()
  {
    var k := DecodedKid(m, p, i, j, rem);
    && k.Means? && Good(k.v) && (k.v == Nil <==> Col(m, p, i, p.shape.DataWords() + j) == 0)
    && (j < CutOf(m, p).PtrWords() ==> Trim(k.v) == Val(Child(m, p, i, j, rem, path)))
  }

  lemma {:induction false} KidMeans(m: Mem, p: Ptr, i: nat, j: nat, rem: nat, path: set<Key>)
    requires Object(m, p) && i < p.shape.Elems() && j < p.shape.PtrWords() && AllSeen(m, p, rem, path)
    ensures KidMeant(m, p, i, j, rem, path)
    decreases rem, 0
  {
    hide Target, Object, Cell, Good, Walk, Decoded, CutOf, Trim, Col;
    NilGood();
    if j >= CutOf(m, p).PtrWords() {
      DroppedIsZero(m, p, i, j);
    } else {
      assert Child(m, p, i, j, rem, path).Seen?;
      if Col(m, p, i, p.shape.DataWords() + j) != 0 {
        WalkMeans(m, Target(m, p, i, j).p, rem - 1, path);
      }
    }
  }

  lemma DroppedIsZero(m: Mem, p: Ptr, i: nat, j: nat)
    requires Object(m, p) && i < p.shape.Elems() && CutOf(m, p).PtrWords() <= j < p.shape.PtrWords()
    ensures Col(m, p, i, p.shape.DataWords() + j) == 0
  {
    var zp := ZeroCols(m, p, p.shape.DataWords(), p.shape.PtrWords());
    assert zp[j];
  }

  ghost predicate KidsMeant(m: Mem, p: Ptr, rem: nat, path: set<Key>)
    requires Object(m, p)
  {
    forall i, j | 0 <= i < p.shape.Elems() && 0 <= j < p.shape.PtrWords() :: KidMeant(m, p, i, j, rem, path)
  }

  /** The columns that are zero words are those whose values are zero or null. */
  lemma SameData(m: Mem, p: Ptr, rem: nat)
    requires Object(m, p) && !p.shape.Prim? && Fits(Whole(m, p, rem))
    ensures ZeroData(Whole(m, p, rem).rows, p.shape.DataWords()) == ZeroCols(m, p, 0, p.shape.DataWords())
  {
    hide Cell, Object, DecodedKid;
    var v, dw := Whole(m, p, rem), p.shape.DataWords();
    forall c | 0 <= c < dw ensures ZeroData(v.rows, dw)[c] == ZeroCol(m, p, c) {
      assert forall i | 0 <= i < p.shape.Elems() :: v.rows[i].data[c] == Col(m, p, i, c);
    }
  }

  lemma SameKids(m: Mem, p: Ptr, rem: nat, path: set<Key>)
    requires Object(m, p) && Fits(Whole(m, p, rem)) && KidsMeant(m, p, rem, path)
    ensures NilKids(Whole(m, p, rem).rows, p.shape.PtrWords()) == ZeroCols(m, p, p.shape.DataWords(),
      p.shape.PtrWords())
  {
    hide Cell, Object, DecodedKid, Good, Child, CutOf, Trim, Col;
    var v, dw, pw := Whole(m, p, rem), p.shape.DataWords(), p.shape.PtrWords();
    forall c | 0 <= c < pw ensures NilKids(v.rows, pw)[c] == ZeroCol(m, p, dw + c) {
      var d := dw + c;
      forall i | 0 <= i < p.shape.Elems() ensures v.rows[i].kids[c] == Nil <==> Col(m, p, i, d) == 0 {
        assert KidMeant(m, p, i, c, rem, path);
      }
    }
  }

  lemma SameCut(m: Mem, p: Ptr, rem: nat, path: set<Key>)
    requires Object(m, p) && Fits(Whole(m, p, rem)) && KidsMeant(m, p, rem, path)
    ensures Cut(Whole(m, p, rem)) == CutOf(m, p)
  {
    SameKids(m, p, rem, path);
    if !p.shape.Prim? {
      SameData(m, p, rem);
    }
    hide Top, ZeroData, NilKids, ZeroCols, KidsMeant, Object, Whole;
  }

  lemma TrimIsFound(m: Mem, p: Ptr, rem: nat, path: set<Key>)
    requires Object(m, p) && Good(Whole(m, p, rem)) && KidsMeant(m, p, rem, path)
    ensures Trim(Whole(m, p, rem)) == Found(m, p, rem, path)
  {
    SameCut(m, p, rem, path);
    hide KidsMeant, Object, CutOf, Cut, Whole;
    var v := Whole(m, p, rem);
    var t, f := Trim(v), Found(m, p, rem, path);
    forall i | 0 <= i < p.shape.Elems() ensures t.rows[i] == f.rows[i] {
      TrimRow(m, p, rem, path, i);
    }
    assert t.rows == f.rows;
  }

  lemma TrimRow(m: Mem, p: Ptr, rem: nat, path: set<Key>, i: nat)
    requires Object(m, p) && Good(Whole(m, p, rem)) && KidsMeant(m, p, rem, path)
    requires Cut(Whole(m, p, rem)) == CutOf(m, p) && i < p.shape.Elems()
    ensures Trim(Whole(m, p, rem)).rows[i] == FoundRow(m, p, i, rem, path)
  {
    var v, cut := Whole(m, p, rem), CutOf(m, p);
    forall j | 0 <= j < cut.PtrWords()
      ensures InGrid(v, i, j) && Trim(Kid(v, i, j)) == Val(Child(m, p, i, j, rem, path))
    {
      assert KidMeant(m, p, i, j, rem, path);
    }
    hide Object, DecodedKid, Child, CutOf, Cut, CutTo, Col, KidsMeant, Cell;
    var t, f := Trim(v).rows[i], FoundRow(m, p, i, rem, path);
    assert t.data == f.data;
    assert t.kids == f.kids;
  }
}
