/**
 Canonical form ("Canonicalization" in the Cap'n Proto encoding specification) as a property of words:
 a message is a tree of objects, and `Laid` says that a run of words holds a tree in preorder.
 */
module CanonValue {
  import opened Powers
  import opened Wire
  import opened Arena
  import opened Pointers

  /** One element of an object: its data words and what its pointers lead to. */
  datatype Row = Row(data: seq<word>, kids: seq<Value>)

  /** What a pointer leads to; structs, data lists and pointer lists have one row, composite lists any number. */
  datatype Value = Nil | CapRef(index: nat) | Tree(shape: Shape, rows: seq<Row>)

  predicate IsEmpty(v: Value) { v.Tree? && v.shape.EmptyStruct() }

  /** The rows are what the shape says. */
  predicate Fits(v: Value)
    requires v.Tree?
  {
    && |v.rows| == v.shape.Elems()
    && (forall i | 0 <= i < |v.rows| :: |v.rows[i].data| == v.shape.DataWords())
    && (forall i | 0 <= i < |v.rows| :: |v.rows[i].kids| == v.shape.PtrWords())
  }

  predicate InGrid(v: Value, i: nat, j: nat) { v.Tree? && i < |v.rows| && j < |v.rows[i].kids| }

  function Kid(v: Value, i: nat, j: nat): (k: Value)
    requires InGrid(v, i, j)
    ensures k < v
  {
    v.rows[i].kids[j]
  }

  ghost predicate Good(v: Value)
    decreases v
  {
    match v
    case Nil => true
    case CapRef(i) => i < B32
    case Tree(shape, rows) =>
      && shape.Encodable() && Readable(shape) && Fits(v)
      && (shape.Prim? ==> rows[0].data == Mask(shape, rows[0].data))
      && forall i, j | InGrid(v, i, j) :: Good(Kid(v, i, j))
  }

  // ---- the bits of a data list -------------------------------------------------------------

  function Bits(shape: Shape): nat
    requires shape.Prim?
  {
    ElemBits(shape.code) * shape.n
  }

  /** The low `k` bits. */
  function Low(w: word, k: nat): word {
    Remainder(w, Pow2(k));
    w % Pow2(k)
  }

  lemma Remainder(a: nat, b: nat)
    requires b > 0
    ensures 0 <= a % b <= a && a % b % b == a % b
  {
    if a < b {
      assert a % b == a;
    }
  }

  /** A data list's words without what lies behind its last bit. */
  function Mask(shape: Shape, ws: seq<word>): (r: seq<word>)
    requires shape.Prim? && |ws| == shape.DataWords()
    ensures |r| == |ws|
  {
    var k := Bits(shape) % 64;
    if k == 0 then ws else ws[..|ws| - 1] + [Low(ws[|ws| - 1], k)]
  }

  lemma MaskTwice(shape: Shape, ws: seq<word>)
    requires shape.Prim? && |ws| == shape.DataWords()
    ensures Mask(shape, Mask(shape, ws)) == Mask(shape, ws)
  {
    var k := Bits(shape) % 64;
    if k != 0 {
      hide Pow2;
      var w := ws[|ws| - 1];
      Remainder(w, Pow2(k));
      assert Mask(shape, ws)[..|ws| - 1] == ws[..|ws| - 1];
    }
  }

  // ---- sizes and places ---------------------------------------------------------------------

  /** The words of everything the pointers before (i, j) lead to, in row order. */
  function Before(v: Value, i: nat, j: nat): (n: nat)
    requires v.Tree? && i <= |v.rows| && (j > 0 ==> i < |v.rows| && j <= |v.rows[i].kids|)
    decreases v, 0, i, j
  {
    if j > 0 then Before(v, i, j - 1) + Size(Kid(v, i, j - 1))
    else if i > 0 then Before(v, i - 1, |v.rows[i - 1].kids|)
    else 0
  }

  /** The words of the object and of all below it. */
  function Size(v: Value): (n: nat)
    decreases v, 1
  {
    if v.Tree? then v.shape.Extra() + v.shape.Size() + Before(v, |v.rows|, 0) else 0
  }

  /** The word of column c of row i in an object that starts at word e. */
  function At(shape: Shape, e: nat, i: nat, c: nat): (a: nat)
    requires i < shape.Elems() && c < shape.Stride()
    ensures e + shape.Extra() <= a < e + shape.Extra() + shape.Size()
  {
    RowEnd(i, shape.Elems(), shape.Stride());
    e + shape.Extra() + i * shape.Stride() + c
  }

  lemma RowEnd(i: nat, n: nat, k: nat)
    requires i < n
    ensures i * k + k <= n * k
  {
    assert i * k + k == (i + 1) * k;
  }

  /** Where what pointer (i, j) leads to is put, when the object starts at word e. */
  function KidAt(v: Value, e: nat, i: nat, j: nat): nat
    requires v.Tree? && i <= |v.rows| && (j > 0 ==> i < |v.rows| && j <= |v.rows[i].kids|)
  {
    e + v.shape.Extra() + v.shape.Size() + Before(v, i, j)
  }

  /** The order of the pointers. */
  predicate Earlier(i: nat, j: nat, i': nat, j': nat) { i < i' || (i == i' && j < j') }

  lemma {:induction false} BeforeGrows(v: Value, i: nat, j: nat, i': nat, j': nat)
    requires InGrid(v, i, j) && i' <= |v.rows| && (j' > 0 ==> i' < |v.rows| && j' <= |v.rows[i'].kids|)
    requires Earlier(i, j, i', j')
    ensures Before(v, i, j) + Size(Kid(v, i, j)) <= Before(v, i', j')
    decreases i', j'
  {
    if j' > 0 {
      if !(i == i' && j == j' - 1) {
        BeforeGrows(v, i, j, i', j' - 1);
      }
    } else {
      BeforeGrows(v, i, j, i' - 1, |v.rows[i' - 1].kids|);
    }
  }

  /** What a pointer leads to lies behind the object itself and before the end. */
  lemma KidInside(v: Value, e: nat, i: nat, j: nat)
    requires InGrid(v, i, j)
    ensures e + v.shape.Extra() + v.shape.Size() <= KidAt(v, e, i, j)
    ensures KidAt(v, e, i, j) + Size(Kid(v, i, j)) <= e + Size(v)
  {
    BeforeGrows(v, i, j, |v.rows|, 0);
  }

  // ---- the layout ---------------------------------------------------------------------------

  /** The longest message there is: sizes are ints, in bytes. */
  const MAX_WORDS := 0x1000_0000

  /** The pointer word at q to a value put at e. */
  function Link(v: Value, q: nat, e: nat): word
    requires Good(v) && q < MAX_WORDS && e <= MAX_WORDS
  {
    match v
    case Nil => 0
    case CapRef(i) => Encode(OtherPtr(0, i))
    case Tree(shape, _) => Encode(TagPointer(shape, if shape.EmptyStruct() then -1 else e - q - 1))
  }

  /** The object's own words: the tag of a composite list and the data. */
  ghost predicate Own(w: seq<word>, v: Value, e: nat)
    requires v.Tree? && Good(v)
  {
    && e + v.shape.Extra() + v.shape.Size() <= |w|
    && (v.shape.Composite? ==> w[e] == CompositeTag(v.shape.n, v.shape.dw, v.shape.pw))
    && forall i, c | 0 <= i < |v.rows| && 0 <= c < v.shape.DataWords() :: w[At(v.shape, e, i, c)] == v.rows[i].data[c]
  }

  /** The pointer (i, j) of an object at e. */
  function SlotAt(v: Value, e: nat, i: nat, j: nat): (a: nat)
    requires InGrid(v, i, j) && Fits(v)
    ensures e + v.shape.Extra() <= a < e + v.shape.Extra() + v.shape.Size()
  {
    At(v.shape, e, i, v.shape.DataWords() + j)
  }

  /** Words e and on hold the value: the object, then what its pointers lead to, one behind the other. */
  ghost predicate Laid(w: seq<word>, v: Value, e: nat)
    requires Good(v) && |w| <= MAX_WORDS
    decreases v
  {
    v.Tree? ==>
      && e + Size(v) <= |w| && Own(w, v, e)
      && forall i, j | InGrid(v, i, j) :: LaidKid(w, v, e, i, j)
  }

  ghost predicate LaidKid(w: seq<word>, v: Value, e: nat, i: nat, j: nat)
    requires Good(v) && |w| <= MAX_WORDS && InGrid(v, i, j)
    decreases v, 0
  {
    && SlotAt(v, e, i, j) < |w| && KidAt(v, e, i, j) + Size(Kid(v, i, j)) <= |w|
    && w[SlotAt(v, e, i, j)] == Link(Kid(v, i, j), SlotAt(v, e, i, j), KidAt(v, e, i, j))
    && Laid(w, Kid(v, i, j), KidAt(v, e, i, j))
  }

  /** A whole message: the root pointer in word 0 and the root's tree behind it. */
  ghost predicate Output(w: seq<word>, v: Value)
    requires Good(v)
  {
    1 + Size(v) == |w| <= MAX_WORDS && w[0] == Link(v, 0, 1) && Laid(w, v, 1)
  }

  // ---- a layout depends only on its own words ---------------------------------------------

  lemma {:induction false} LaidFrame(w: seq<word>, w': seq<word>, v: Value, e: nat)
    requires Good(v) && |w| <= MAX_WORDS && |w'| <= MAX_WORDS && Laid(w, v, e) && e + Size(v) <= |w'|
    requires forall x | e <= x < e + Size(v) :: x < |w| && w'[x] == w[x]
    ensures Laid(w', v, e)
    decreases v
  {
    if v.Tree? {
      forall i, j | InGrid(v, i, j) ensures LaidKid(w', v, e, i, j) {
        KidInside(v, e, i, j);
        assert LaidKid(w, v, e, i, j);
        LaidFrame(w, w', Kid(v, i, j), KidAt(v, e, i, j));
      }
      OwnFrame(w, w', v, e);
    }
  }

  lemma OwnFrame(w: seq<word>, w': seq<word>, v: Value, e: nat)
    requires v.Tree? && Good(v) && Own(w, v, e) && e + v.shape.Extra() + v.shape.Size() <= |w'|
    requires forall x | e <= x < e + v.shape.Extra() + v.shape.Size() :: w'[x] == w[x]
    ensures Own(w', v, e)
  {
  }

  // ---- and determines them: a value has one layout ------------------------------------------

  /** Every word of the rows is in one column of one row. */
  lemma Coordinates(y: nat, n: nat, k: nat) returns (i: nat, c: nat)
    requires y < n * k
    ensures i < n && c < k && y == i * k + c
  {
    if k == 0 {
      assert false;
    }
    i, c := y / k, y % k;
    assert y == i * k + c;
    if i >= n {
      NotBelow(n, i, k);
      assert false;
    }
  }

  lemma NotBelow(n: nat, i: nat, k: nat)
    requires n <= i
    ensures n * k <= i * k
  {
  }

  /** Every word behind the object belongs to what one pointer leads to. */
  lemma {:induction false} Owner(v: Value, i': nat, j': nat, y: nat) returns (i: nat, j: nat)
    requires v.Tree? && i' <= |v.rows| && (j' > 0 ==> i' < |v.rows| && j' <= |v.rows[i'].kids|)
    requires y < Before(v, i', j')
    ensures InGrid(v, i, j) && Before(v, i, j) <= y < Before(v, i, j) + Size(Kid(v, i, j))
    decreases i', j'
  {
    if j' > 0 {
      if Before(v, i', j' - 1) <= y {
        return i', j' - 1;
      }
      i, j := Owner(v, i', j' - 1, y);
    } else {
      i, j := Owner(v, i' - 1, |v.rows[i' - 1].kids|, y);
    }
  }

  lemma {:induction false} LaidUnique(w: seq<word>, w': seq<word>, v: Value, e: nat, x: nat)
    requires Good(v) && |w| <= MAX_WORDS && |w'| <= MAX_WORDS && Laid(w, v, e) && Laid(w', v, e)
    requires e <= x < e + Size(v)
    ensures w[x] == w'[x]
    decreases v
  {
    var body := e + v.shape.Extra();
    if x < body {
      assert x == e;
    } else if x < body + v.shape.Size() {
      OwnUnique(w, w', v, e, x);
    } else {
      var i, j := Owner(v, |v.rows|, 0, x - body - v.shape.Size());
      assert LaidKid(w, v, e, i, j) && LaidKid(w', v, e, i, j);
      LaidUnique(w, w', Kid(v, i, j), KidAt(v, e, i, j), x);
    }
  }

  lemma OwnUnique(w: seq<word>, w': seq<word>, v: Value, e: nat, x: nat)
    requires v.Tree? && Good(v) && |w| <= MAX_WORDS && |w'| <= MAX_WORDS && Laid(w, v, e) && Laid(w', v, e)
    requires e + v.shape.Extra() <= x < e + v.shape.Extra() + v.shape.Size()
    ensures w[x] == w'[x]
  {
    var i, c := Coordinates(x - e - v.shape.Extra(), v.shape.Elems(), v.shape.Stride());
    assert x == At(v.shape, e, i, c);
    if c >= v.shape.DataWords() {
      var j := c - v.shape.DataWords();
      assert InGrid(v, i, j);
      assert LaidKid(w, v, e, i, j) && LaidKid(w', v, e, i, j);
    }
  }

  /** Canonical form is unique: the value fixes every word of the message. */
  lemma OutputUnique(w: seq<word>, w': seq<word>, v: Value)
    requires Good(v) && Output(w, v) && Output(w', v)
    ensures w == w'
  {
    forall x | 1 <= x < |w| ensures w[x] == w'[x] {
      LaidUnique(w, w', v, 1, x);
    }
  }

  // ---- reading a layout ---------------------------------------------------------------------

  /** What the slot at q reads as, when it links to a value at e. */
  function PtrTo(v: Value, q: nat, e: nat): Ptr {
    match v
    case Nil => Null
    case CapRef(i) => Cap(i)
    case Tree(shape, _) =>
      if shape.EmptyStruct() then Obj(0, q, Struct(0, 0), false) else Obj(0, e + shape.Extra(), shape, false)
  }

  lemma LinkReads(w: seq<word>, v: Value, q: nat, e: nat)
    requires Good(v) && q < |w| <= MAX_WORDS && e <= |w| && Laid(w, v, e) && w[q] == Link(v, q, e)
    ensures ReadSlot([w], 0, q) == Got(PtrTo(v, q, e))
  {
    hide ReadSlot, Encode, TagPointer, CompositeTag;
    if v.Tree? && !IsEmpty(v) {
      hide Laid, Good;
      LinkLands(w, v, q, e);
      NearReads([w], q, PtrTo(v, q, e), e - q - 1);
    } else {
      hide Laid;
      LinkIsImmediate(v, q, e);
      ImmediateSlot(w, q, PtrTo(v, q, e));
    }
  }

  lemma ImmediateSlot(w: seq<word>, q: nat, p: Ptr)
    requires match p case Null => true case Cap(i) => i < B32 case Obj(s, d, shape, t) => p == Obj(0, q,
      Struct(0, 0), false)
    requires q < |w| && w[q] == Immediate(p)
    ensures ReadSlot([w], 0, q) == Got(p)
  {
    match p
    case Null => assert Encode(StructPtr(0, 0, 0)) == 0; DecodeEncode(StructPtr(0, 0, 0));
    case Cap(i) => DecodeEncode(OtherPtr(0, i));
    case Obj(_, _, _, _) => DecodeEncode(StructPtr(-1, 0, 0));
  }

  lemma LinkLands(w: seq<word>, v: Value, q: nat, e: nat)
    requires v.Tree? && !IsEmpty(v) && Good(v) && q < |w| <= MAX_WORDS && e <= |w| && Laid(w, v, e)
    ensures Denotes([w], PtrTo(v, q, e)) && v.shape.Encodable() && Readable(v.shape) && InRange(e - q - 1)
    ensures Link(v, q, e) == Encode(TagPointer(v.shape, e - q - 1))
  {
    hide Encode, TagPointer, CompositeTag, TagShape;
    if v.shape.Composite? {
      CompositeTagReads(v.shape.n, v.shape.dw, v.shape.pw);
    }
  }

  lemma LinkIsImmediate(v: Value, q: nat, e: nat)
    requires Good(v) && q < MAX_WORDS && e <= MAX_WORDS && !(v.Tree? && !IsEmpty(v))
    ensures v.CapRef? ==> v.index < B32
    ensures Link(v, q, e) == Immediate(PtrTo(v, q, e))
  {
  }
}
