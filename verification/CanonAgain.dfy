/** Reading a canonical message back: what it means, and what canonicalizing it once more does. */
module CanonAgain {
  import opened Wire
  import opened Arena
  import opened Pointers
  import opened CanonValue
  import opened CanonSource

  /** The nesting limit lets the walk through. */
  ghost predicate DeepEnough(v: Value, rem: nat)
    decreases v
  {
    forall i, j | InGrid(v, i, j) :: rem > 0 && DeepEnough(Kid(v, i, j), rem - 1)
  }

  /**
   An empty struct is written with offset -1, which makes it start at its own slot. In the first slot of
   a struct without data words that is where the parent starts, and the cycle check cannot tell the two
   apart.
   */
  predicate ClashesWithParent(v: Value) {
    v.Tree? && v.shape.Struct? && v.shape.dw == 0 && InGrid(v, 0, 0) && IsEmpty(Kid(v, 0, 0))
  }

  ghost predicate NoClash(v: Value)
    decreases v
  {
    !ClashesWithParent(v) && forall i, j | InGrid(v, i, j) :: NoClash(Kid(v, i, j))
  }

  /** charge_traversal for an object of this shape. */
  function Charge(v: Value): nat { if v.Tree? then Cost(Obj(0, 0, v.shape, false)) else 0 }

  /** The charges for everything the pointers before (i, j) lead to. */
  function Charges(v: Value, i: nat, j: nat): nat
    requires v.Tree? && i <= |v.rows| && (j > 0 ==> i < |v.rows| && j <= |v.rows[i].kids|)
    decreases v, 0, i, j
  {
    if j > 0 then Charges(v, i, j - 1) + Charge(Kid(v, i, j - 1)) + AllCharges(Kid(v, i, j - 1))
    else if i > 0 then Charges(v, i - 1, |v.rows[i - 1].kids|)
    else 0
  }

  function AllCharges(v: Value): nat
    decreases v, 1
  {
    if v.Tree? then Charges(v, |v.rows|, 0) else 0
  }

  // ---- the words of a laid-out object -------------------------------------------------------

  /** The object that v, put at e and linked from q, is read as. */
  ghost predicate At0(w: seq<word>, v: Value, q: nat, e: nat) {
    v.Tree? && Good(v) && !IsEmpty(v) && q < |w| <= MAX_WORDS && e <= |w| && Laid(w, v, e)
  }

  lemma IsObject(w: seq<word>, v: Value, q: nat, e: nat)
    requires At0(w, v, q, e)
    ensures PtrTo(v, q, e) == Obj(0, e + v.shape.Extra(), v.shape, false) && Object([w], PtrTo(v, q, e)) && Fits(v)
  {
    LinkLands(w, v, q, e);
  }

  lemma DataCol(w: seq<word>, v: Value, q: nat, e: nat, i: nat, c: nat)
    requires At0(w, v, q, e) && i < |v.rows| && c < v.shape.DataWords() && Object([w], PtrTo(v, q, e)) && Fits(v)
    ensures Col([w], PtrTo(v, q, e), i, c) == v.rows[i].data[c]
  {
    hide Good, At, Object;
  }

  lemma DataRow(w: seq<word>, v: Value, q: nat, e: nat, i: nat)
    requires At0(w, v, q, e) && i < |v.rows| && Object([w], PtrTo(v, q, e)) && Fits(v)
    ensures DataOf([w], PtrTo(v, q, e), v.shape.DataWords(), i) == v.rows[i].data
  {
    var p, dw := PtrTo(v, q, e), v.shape.DataWords();
    forall c | 0 <= c < dw ensures Col([w], p, i, c) == v.rows[i].data[c] {
      DataCol(w, v, q, e, i, c);
    }
    assert p.shape.Prim? ==> i == 0 && v.rows[0].data == Mask(p.shape, v.rows[0].data);
    hide Col, Good, Object, Laid, Mask;
    assert seq(dw, c requires 0 <= c < dw => Col([w], p, i, c)) == v.rows[i].data;
  }

  /** Pointer (i, j): null exactly when the child is, and read as the child's object otherwise. */
  lemma KidSlot(w: seq<word>, v: Value, q: nat, e: nat, i: nat, j: nat)
    requires At0(w, v, q, e) && InGrid(v, i, j) && Object([w], PtrTo(v, q, e)) && Fits(v)
    ensures Good(Kid(v, i, j)) && KidAt(v, e, i, j) <= |w| && SlotAt(v, e, i, j) < |w| <= MAX_WORDS
    ensures Laid(w, Kid(v, i, j), KidAt(v, e, i, j))
    ensures Target([w], PtrTo(v, q, e), i, j) == Got(PtrTo(Kid(v, i, j), SlotAt(v, e, i, j), KidAt(v, e, i, j)))
    ensures Col([w], PtrTo(v, q, e), i, v.shape.DataWords() + j) == 0 <==> Kid(v, i, j) == Nil
  {
    KidLink(w, v, q, e, i, j);
    LinkReads(w, Kid(v, i, j), SlotAt(v, e, i, j), KidAt(v, e, i, j));
    LinkZero(Kid(v, i, j), SlotAt(v, e, i, j), KidAt(v, e, i, j));
    hide ReadSlot, Object, Good, At, Laid, Link, KidAt, Shape.Stride, Shape.Size, Shape.Elems, PtrTo, Fits;
    assert PtrTo(v, q, e).shape == v.shape && PtrTo(v, q, e).seg == 0 && PtrTo(v, q, e).data == e + v.shape.Extra() by {
      IsObject(w, v, q, e);
    }
    assert Cell([w], PtrTo(v, q, e), i, v.shape.DataWords() + j) == SlotAt(v, e, i, j);
  }

  lemma KidLink(w: seq<word>, v: Value, q: nat, e: nat, i: nat, j: nat)
    requires At0(w, v, q, e) && InGrid(v, i, j) && Fits(v)
    ensures Good(Kid(v, i, j)) && KidAt(v, e, i, j) <= |w| && SlotAt(v, e, i, j) < |w|
    ensures Laid(w, Kid(v, i, j), KidAt(v, e, i, j))
    ensures w[SlotAt(v, e, i, j)] == Link(Kid(v, i, j), SlotAt(v, e, i, j), KidAt(v, e, i, j))
  {
    assert LaidKid(w, v, e, i, j);
    KidInside(v, e, i, j);
    hide At;
  }

  lemma LinkZero(v: Value, q: nat, e: nat)
    requires Good(v) && q < MAX_WORDS && e <= MAX_WORDS
    ensures Link(v, q, e) == 0 <==> v == Nil
  {
    var w := Link(v, q, e);
    if v.Tree? {
      var p := TagPointer(v.shape, if v.shape.EmptyStruct() then -1 else e - q - 1);
      DecodeEncode(p);
      hide Encode, Decode;
      assert Decode(0) == StructPtr(0, 0, 0) by { DecodeZero(); }
    } else if v.CapRef? {
      DecodeEncode(OtherPtr(0, v.index));
      hide Encode, Decode;
      DecodeZero();
    }
  }

  lemma DecodeZero()
    ensures Decode(0) == StructPtr(0, 0, 0)
  {
  }

  // ---- meaning ------------------------------------------------------------------------------

  /** A layout means the value that was laid out. */
  lemma {:induction false} LaidMeans(w: seq<word>, v: Value, q: nat, e: nat, depth: nat)
    requires Good(v) && q < |w| <= MAX_WORDS && e <= |w| && Laid(w, v, e) && DeepEnough(v, depth)
    ensures Sound([w], PtrTo(v, q, e)) && Decoded([w], PtrTo(v, q, e), depth) == Means(v)
    decreases v, 1
  {
    if v.Tree? {
      if IsEmpty(v) {
        EmptyMeans(w, v, q, depth);
      } else {
        IsObject(w, v, q, e);
        forall i, j | InGrid(v, i, j) ensures KidRead(w, v, q, e, i, j, depth) {
          LaidKidMeans(w, v, q, e, i, j, depth);
        }
        hide *;
        ObjectMeans(w, v, q, e, depth);
      }
    }
  }

  lemma {:induction false} LaidKidMeans(w: seq<word>, v: Value, q: nat, e: nat, i: nat, j: nat, depth: nat)
    requires At0(w, v, q, e) && Object([w], PtrTo(v, q, e)) && PtrTo(v, q, e).shape == v.shape && Fits(v)
    requires InGrid(v, i, j) && DeepEnough(v, depth)
    ensures KidRead(w, v, q, e, i, j, depth)
    decreases v, 0
  {
    KidSlot(w, v, q, e, i, j);
    hide At0, Object, Laid, Good, Fits, Decoded, Target, Col, KidAt;
    LaidMeans(w, Kid(v, i, j), SlotAt(v, e, i, j), KidAt(v, e, i, j), depth - 1);
  }

  ghost predicate KidRead(w: seq<word>, v: Value, q: nat, e: nat, i: nat, j: nat, depth: nat)
    requires Object([w], PtrTo(v, q, e)) && InGrid(v, i, j) && v.Tree? && PtrTo(v, q, e).shape == v.shape && Fits(v)
  {
    DecodedKid([w], PtrTo(v, q, e), i, j, depth) == Means(Kid(v, i, j))
  }

  const EMPTY := Tree(Struct(0, 0), [Row([], [])])

  lemma EmptyIs(v: Value)
    requires Good(v) && IsEmpty(v)
    ensures v == EMPTY
  {
    var row := v.rows[0];
    assert row.data == [] && row.kids == [];
    assert v.rows == [row];
  }

  lemma EmptyMeans(w: seq<word>, v: Value, q: nat, depth: nat)
    requires Good(v) && IsEmpty(v) && q < |w|
    ensures var p := Obj(0, q, Struct(0, 0), false); Sound([w], p) && Decoded([w], p, depth) == Means(v)
  {
    var p := Obj(0, q, Struct(0, 0), false);
    EmptyIs(v);
    assert Decoded([w], p, depth) == Means(Whole([w], p, depth));
    hide DataOf, DecodedKid, Decoded, Good;
    var row := WholeRow([w], p, 0, depth);
    assert row.data == [] && row.kids == [];
    assert Whole([w], p, depth).rows == [row];
  }

  lemma ObjectMeans(w: seq<word>, v: Value, q: nat, e: nat, depth: nat)
    requires At0(w, v, q, e) && PtrTo(v, q, e).Obj? && PtrTo(v, q, e).shape == v.shape && Fits(v)
    requires Object([w], PtrTo(v, q, e)) && forall i, j | InGrid(v, i, j) :: KidRead(w, v, q, e, i, j, depth)
    ensures Decoded([w], PtrTo(v, q, e), depth) == Means(v)
  {
    var p := PtrTo(v, q, e);
    forall i, j | 0 <= i < p.shape.Elems() && 0 <= j < p.shape.PtrWords() ensures DecodedKid([w], p, i, j,
      depth).Means? {
      assert KidRead(w, v, q, e, i, j, depth);
    }
    var u := Whole([w], p, depth);
    assert u.rows == v.rows by {
      forall i | 0 <= i < |v.rows| ensures u.rows[i] == v.rows[i] {
        RowMeans(w, v, q, e, depth, i);
        hide At0, Object, WholeRow, PtrTo;
      }
      hide *;
    }
    hide At0, DecodedKid, Whole, PtrTo, Object;
  }

  lemma RowMeans(w: seq<word>, v: Value, q: nat, e: nat, depth: nat, i: nat)
    requires At0(w, v, q, e) && PtrTo(v, q, e).Obj? && PtrTo(v, q, e).shape == v.shape && Fits(v) && i < |v.rows|
    requires Object([w], PtrTo(v, q, e)) && forall i, j | InGrid(v, i, j) :: KidRead(w, v, q, e, i, j, depth)
    ensures WholeRow([w], PtrTo(v, q, e), i, depth) == v.rows[i]
  {
    var p := PtrTo(v, q, e);
    DataRow(w, v, q, e, i);
    forall j | 0 <= j < p.shape.PtrWords() ensures DecodedKid([w], p, i, j, depth) == Means(v.rows[i].kids[j]) {
      assert KidRead(w, v, q, e, i, j, depth);
    }
    hide At0, DecodedKid, DataOf, PtrTo, Object;
    assert WholeRow([w], p, i, depth).kids == v.rows[i].kids;
  }

  // ---- the traversal of a canonical message -------------------------------------------------

  /** Truncated all the way down. */
  ghost predicate Trimmed(v: Value)
    requires Good(v)
    decreases v
  {
    v.Tree? ==> Cut(v) == v.shape && forall i, j | InGrid(v, i, j) :: Trimmed(Kid(v, i, j))
  }

  /** No column of a truncated object goes. */
  lemma CutStays(w: seq<word>, v: Value, q: nat, e: nat)
    requires At0(w, v, q, e) && Trimmed(v) && Object([w], PtrTo(v, q, e)) && Fits(v) && PtrTo(v, q, e).shape == v.shape
    ensures CutOf([w], PtrTo(v, q, e)) == v.shape
  {
    var p, dw, pw := PtrTo(v, q, e), v.shape.DataWords(), v.shape.PtrWords();
    if v.shape.Struct? || v.shape.Composite? {
      DataColumns(w, v, q, e);
      KidColumns(w, v, q, e);
    }
    hide At0, Object, Good, ZeroCols, ZeroData, NilKids, Top, PtrTo, Fits;
  }

  lemma DataColumns(w: seq<word>, v: Value, q: nat, e: nat)
    requires At0(w, v, q, e) && Object([w], PtrTo(v, q, e)) && Fits(v) && PtrTo(v, q, e).shape == v.shape
    ensures ZeroCols([w], PtrTo(v, q, e), 0, v.shape.DataWords()) == ZeroData(v.rows, v.shape.DataWords())
  {
    var p, dw := PtrTo(v, q, e), v.shape.DataWords();
    hide At0, Object, Col;
    forall c | 0 <= c < dw ensures ZeroData(v.rows, dw)[c] == ZeroCol([w], p, c) {
      forall i | 0 <= i < p.shape.Elems() ensures v.rows[i].data[c] == Col([w], p, i, c) {
        DataCol(w, v, q, e, i, c);
      }
    }
  }

  lemma KidColumns(w: seq<word>, v: Value, q: nat, e: nat)
    requires At0(w, v, q, e) && Object([w], PtrTo(v, q, e)) && Fits(v) && PtrTo(v, q, e).shape == v.shape
    ensures ZeroCols([w], PtrTo(v, q, e), v.shape.DataWords(), v.shape.PtrWords()) == NilKids(v.rows,
      v.shape.PtrWords())
  {
    var p, dw, pw := PtrTo(v, q, e), v.shape.DataWords(), v.shape.PtrWords();
    hide At0, Object, Col, Target, KidAt, Laid, Good;
    forall c | 0 <= c < pw ensures NilKids(v.rows, pw)[c] == ZeroCol([w], p, dw + c) {
      var d := dw + c;
      forall i | 0 <= i < p.shape.Elems() ensures v.rows[i].kids[c] == Nil <==> Col([w], p, i, d) == 0 {
        assert InGrid(v, i, c) && Kid(v, i, c) == v.rows[i].kids[c];
        KidSlot(w, v, q, e, i, c);
      }
    }
  }

  /** Every object on the path starts before word e. */
  predicate Below(path: set<Key>, e: nat) { forall k | k in path :: k.seg == 0 && k.data < e }

  /** What the traversal of a layout comes to. */
  ghost function Again(v: Value, rem: nat): Walked {
    if NoClash(v) && DeepEnough(v, rem) then Seen(v, AllCharges(v)) else Stuck
  }

  /**
   The traversal of a canonical message finds the value that was laid out, unless the nesting limit is
   too low or an empty struct clashes with its parent.
   */
  lemma {:induction false} Rewalk(w: seq<word>, v: Value, q: nat, e: nat, rem: nat, path: set<Key>)
    requires Good(v) && Trimmed(v) && q < |w| <= MAX_WORDS && e <= |w| && Laid(w, v, e) && Below(path, e)
    requires IsEmpty(v) ==> KeyOf(PtrTo(v, q, e)) !in path
    ensures Sound([w], PtrTo(v, q, e)) && Walk([w], PtrTo(v, q, e), rem, path) == Again(v, rem)
    decreases v, 1, 0
  {
    if v.Tree? {
      if IsEmpty(v) {
        EmptyWalk(w, v, q, rem, path);
      } else {
        IsObject(w, v, q, e);
        hide *;
        RewalkObject(w, v, q, e, rem, path);
      }
    }
  }

  lemma {:induction false} RewalkObject(w: seq<word>, v: Value, q: nat, e: nat, rem: nat, path: set<Key>)
    requires At0(w, v, q, e) && Object([w], PtrTo(v, q, e)) && PtrTo(v, q, e).shape == v.shape && Fits(v) && Trimmed(v)
    requires Below(path, e)
    ensures Walk([w], PtrTo(v, q, e), rem, path) == Again(v, rem)
    decreases v, 0, 1
  {
    assert KeyOf(PtrTo(v, q, e)) !in path;
    forall i, j | InGrid(v, i, j) ensures KidAgain(w, v, q, e, i, j, rem, path + {KeyOf(PtrTo(v, q, e))}) {
      RewalkKid(w, v, q, e, i, j, rem, path);
    }
    hide *;
    ObjectAgain(w, v, q, e, rem, path);
  }

  ghost predicate KidAgain(w: seq<word>, v: Value, q: nat, e: nat, i: nat, j: nat, rem: nat, path: set<Key>)
    requires Object([w], PtrTo(v, q, e)) && InGrid(v, i, j) && PtrTo(v, q, e).shape == v.shape && Fits(v)
  {
    var k := Kid(v, i, j);
    Child([w], PtrTo(v, q, e), i, j, rem, path) ==
    if rem > 0 && NoClash(k) && DeepEnough(k, rem - 1) && !(i == 0 && j == 0 && ClashesWithParent(v))
    then Seen(k, Charge(k) + AllCharges(k)) else Stuck
  }

  lemma EmptyWalk(w: seq<word>, v: Value, q: nat, rem: nat, path: set<Key>)
    requires Good(v) && IsEmpty(v) && q < |w| && Key(0, q, 1, false) !in path
    ensures var p := Obj(0, q, Struct(0, 0), false); Sound([w], p) && Walk([w], p, rem, path) == Again(v, rem)
  {
    var p := Obj(0, q, Struct(0, 0), false);
    EmptyIs(v);
    assert Charges(v, 0, 0) == 0 && Charges(v, 1, 0) == 0;
    hide DataOf, Child, Good;
    var inner := path + {KeyOf(p)};
    var row := FoundRow([w], p, 0, rem, inner);
    assert row.data == [] && row.kids == [];
    assert Rows([w], p, rem, inner) == [row];
    assert Spent([w], p, rem, inner, 0, 0) == 0 && Spent([w], p, rem, inner, 1, 0) == 0;
  }

  /** An object starts no later than its slots; only a struct without data words starts at one. */
  lemma SlotBehind(v: Value, e: nat, i: nat, j: nat)
    requires InGrid(v, i, j) && Fits(v)
    ensures e + v.shape.Extra() <= SlotAt(v, e, i, j) && e + v.shape.Extra() < KidAt(v, e, i, j)
    ensures SlotAt(v, e, i, j) == e + v.shape.Extra() <==> i == 0 && j == 0 && v.shape.DataWords() == 0
  {
    if i > 0 {
      assert i * v.shape.Stride() >= v.shape.Stride();
    }
  }

  lemma {:induction false} RewalkKid(w: seq<word>, v: Value, q: nat, e: nat, i: nat, j: nat, rem: nat, path: set<Key>)
    requires At0(w, v, q, e) && Object([w], PtrTo(v, q, e)) && PtrTo(v, q, e).shape == v.shape && Fits(v) && Trimmed(v)
    requires InGrid(v, i, j) && Below(path, e)
    ensures KidAgain(w, v, q, e, i, j, rem, path + {KeyOf(PtrTo(v, q, e))})
    decreases v, 0, 0
  {
    hide At0, Object, Laid, Good, Fits, Trimmed, Sound, Walk, Child, Target, Col, KidAt, SlotAt, Again, KidAgain, CutOf;
    hide Below, PtrTo, KeyOf, IsEmpty, ClashesWithParent, Link;
    var k, slot, at := Kid(v, i, j), SlotAt(v, e, i, j), KidAt(v, e, i, j);
    var inner := path + {KeyOf(PtrTo(v, q, e))};
    KidSlot(w, v, q, e, i, j);
    ChildIs(w, v, q, e, i, j, rem, inner);
    KeyClash(w, v, q, e, i, j, path);
    TrimmedKid(w, v, q, e, i, j);
    if rem > 0 && k != Nil {
      if i == 0 && j == 0 && ClashesWithParent(v) {
        StuckOnPath(w, PtrTo(k, slot, at), rem - 1, inner);
      } else {
        Rewalk(w, k, slot, at, rem - 1, inner);
      }
    }
    KidAgainFrom(w, v, q, e, i, j, rem, inner, if k != Nil && rem > 0 then Walk([w], PtrTo(k, slot, at), rem - 1,
      inner) else Stuck);
  }

  lemma KidAgainFrom(w: seq<word>, v: Value, q: nat, e: nat, i: nat, j: nat, rem: nat, path: set<Key>, walked: Walked)
    requires Object([w], PtrTo(v, q, e)) && InGrid(v, i, j) && PtrTo(v, q, e).shape == v.shape && Fits(v)
    requires i == 0 && j == 0 && ClashesWithParent(v) ==> Kid(v, i, j) != Nil
    requires rem > 0 && Kid(v, i, j) != Nil ==>
      walked == if i == 0 && j == 0 && ClashesWithParent(v) then Stuck else Again(Kid(v, i, j), rem - 1)
    requires Child([w], PtrTo(v, q, e), i, j, rem, path) ==
      if rem == 0 then Stuck else if Kid(v, i, j) == Nil then Seen(Nil, 0)
      else match walked case Stuck => Stuck case Seen(u, cost) => Seen(u, Charge(Kid(v, i, j)) + cost)
    ensures KidAgain(w, v, q, e, i, j, rem, path)
  {
    hide Child, Object, Fits, ClashesWithParent;
    if Kid(v, i, j) == Nil {
      NilAgain(rem);
      hide NoClash, DeepEnough;
    }
  }

  lemma NilAgain(rem: nat)
    ensures NoClash(Nil) && Charge(Nil) == AllCharges(Nil) == 0 && (rem > 0 ==> DeepEnough(Nil, rem - 1))
  {
  }

  lemma TrimmedKid(w: seq<word>, v: Value, q: nat, e: nat, i: nat, j: nat)
    requires At0(w, v, q, e) && Trimmed(v) && InGrid(v, i, j)
    ensures Good(Kid(v, i, j)) && Trimmed(Kid(v, i, j))
  {
  }

  lemma StuckOnPath(w: seq<word>, p: Ptr, rem: nat, path: set<Key>)
    requires Sound([w], p) && p.Obj? && KeyOf(p) in path
    ensures Walk([w], p, rem, path) == Stuck
  {
  }

  /** The only child whose key is on the path is an empty struct in the first slot of its parent. */
  lemma KeyClash(w: seq<word>, v: Value, q: nat, e: nat, i: nat, j: nat, path: set<Key>)
    requires At0(w, v, q, e) && PtrTo(v, q, e).Obj? && InGrid(v, i, j) && Fits(v) && Below(path, e)
    ensures var inner := path + {KeyOf(PtrTo(v, q, e))};
      && Below(inner, KidAt(v, e, i, j))
      && (IsEmpty(Kid(v, i, j)) ==>
        (KeyOf(PtrTo(Kid(v, i, j), SlotAt(v, e, i, j), KidAt(v, e, i, j))) in inner <==>
        i == 0 && j == 0 && ClashesWithParent(v)))
    ensures i == 0 && j == 0 && ClashesWithParent(v) ==>
      && IsEmpty(Kid(v, i, j)) && Kid(v, i, j) != Nil
      && PtrTo(Kid(v, i, j), SlotAt(v, e, i, j), KidAt(v, e, i, j)).Obj?
  {
    SlotBehind(v, e, i, j);
    hide SlotAt, KidAt, Fits, Laid, Good;
  }

  lemma ChildIs(w: seq<word>, v: Value, q: nat, e: nat, i: nat, j: nat, rem: nat, path: set<Key>)
    requires At0(w, v, q, e) && Object([w], PtrTo(v, q, e)) && PtrTo(v, q, e).shape == v.shape && Fits(v)
      && InGrid(v, i, j)
    ensures var k, p := Kid(v, i, j), PtrTo(Kid(v, i, j), SlotAt(v, e, i, j), KidAt(v, e, i, j));
      && Sound([w], p)
      && Child([w], PtrTo(v, q, e), i, j, rem, path) ==
        if rem == 0 then Stuck else if k == Nil then Seen(Nil, 0)
        else match Walk([w], p, rem - 1, path) case Stuck => Stuck case Seen(u, cost) => Seen(u, Charge(k) + cost)
  {
    hide At0, Object, Laid, Good, Fits, Target, Col, KidAt, SlotAt, Walk, Sound, Bytes, IsEmpty;
    KidSlot(w, v, q, e, i, j);
  }

  lemma ObjectAgain(w: seq<word>, v: Value, q: nat, e: nat, rem: nat, path: set<Key>)
    requires At0(w, v, q, e) && Object([w], PtrTo(v, q, e)) && PtrTo(v, q, e).shape == v.shape && Fits(v) && Trimmed(v)
    requires KeyOf(PtrTo(v, q, e)) !in path
    requires forall i, j | InGrid(v, i, j) :: KidAgain(w, v, q, e, i, j, rem, path + {KeyOf(PtrTo(v, q, e))})
    ensures Walk([w], PtrTo(v, q, e), rem, path) == Again(v, rem)
  {
    var p, inner := PtrTo(v, q, e), path + {KeyOf(PtrTo(v, q, e))};
    CutStays(w, v, q, e);
    AllAgain(w, v, q, e, rem, inner);
    if AllSeen([w], p, rem, inner) {
      forall i | 0 <= i < |v.rows| ensures Rows([w], p, rem, inner)[i] == v.rows[i] {
        RowAgain(w, v, q, e, rem, inner, i);
      }
      assert Rows([w], p, rem, inner) == v.rows;
      SpentAgain(w, v, q, e, rem, inner, |v.rows|, 0);
    }
    hide At0, Object, Trimmed, CutOf, Rows, AllSeen, Spent, DeepEnough, NoClash, KidAgain;
  }

  /** The traversal of the children succeeds if and only if that of the whole object should. */
  lemma AllAgain(w: seq<word>, v: Value, q: nat, e: nat, rem: nat, path: set<Key>)
    requires Object([w], PtrTo(v, q, e)) && PtrTo(v, q, e).shape == v.shape == CutOf([w], PtrTo(v, q, e)) && v.Tree?
      && Fits(v)
    requires forall i, j | InGrid(v, i, j) :: KidAgain(w, v, q, e, i, j, rem, path)
    ensures AllSeen([w], PtrTo(v, q, e), rem, path) <==> NoClash(v) && DeepEnough(v, rem)
  {
    var p := PtrTo(v, q, e);
    hide Object, CutOf;
    if ClashesWithParent(v) {
      assert KidAgain(w, v, q, e, 0, 0, rem, path);
      assert !Child([w], p, 0, 0, rem, path).Seen?;
    }
    if AllSeen([w], p, rem, path) {
      forall i, j | InGrid(v, i, j) ensures rem > 0 && NoClash(Kid(v, i, j)) && DeepEnough(Kid(v, i, j), rem - 1) {
        assert KidAgain(w, v, q, e, i, j, rem, path) && Child([w], p, i, j, rem, path).Seen?;
      }
    }
    if NoClash(v) && DeepEnough(v, rem) {
      forall i, j | 0 <= i < p.shape.Elems() && 0 <= j < v.shape.PtrWords() ensures Child([w], p, i, j, rem,
        path).Seen? {
        assert InGrid(v, i, j) && KidAgain(w, v, q, e, i, j, rem, path);
      }
    }
  }

  lemma RowAgain(w: seq<word>, v: Value, q: nat, e: nat, rem: nat, path: set<Key>, i: nat)
    requires At0(w, v, q, e) && Object([w], PtrTo(v, q, e)) && PtrTo(v, q, e).shape == v.shape == CutOf([w],
      PtrTo(v, q, e))
    requires Fits(v) && i < |v.rows| && AllSeen([w], PtrTo(v, q, e), rem, path)
    requires forall i, j | InGrid(v, i, j) :: KidAgain(w, v, q, e, i, j, rem, path)
    ensures FoundRow([w], PtrTo(v, q, e), i, rem, path) == v.rows[i]
  {
    var p := PtrTo(v, q, e);
    DataRow(w, v, q, e, i);
    forall j | 0 <= j < v.shape.PtrWords() ensures Val(Child([w], p, i, j, rem, path)) == v.rows[i].kids[j] {
      assert Child([w], p, i, j, rem, path).Seen?;
      assert InGrid(v, i, j) && KidAgain(w, v, q, e, i, j, rem, path);
    }
    hide At0, Object, Child, DataOf, CutOf, PtrTo, KidAgain, AllSeen;
    assert FoundRow([w], p, i, rem, path).kids == v.rows[i].kids;
  }

  lemma {:induction false} SpentAgain(w: seq<word>, v: Value, q: nat, e: nat, rem: nat, path: set<Key>, i: nat, j: nat)
    requires Object([w], PtrTo(v, q, e)) && PtrTo(v, q, e).shape == v.shape == CutOf([w], PtrTo(v, q, e))
    requires v.Tree? && Fits(v) && i <= |v.rows| && (j > 0 ==> i < |v.rows| && j <= |v.rows[i].kids|)
    requires AllSeen([w], PtrTo(v, q, e), rem, path)
    requires forall i, j | InGrid(v, i, j) :: KidAgain(w, v, q, e, i, j, rem, path)
    ensures Spent([w], PtrTo(v, q, e), rem, path, i, j) == Charges(v, i, j)
    decreases i, j
  {
    if j > 0 {
      SpentAgain(w, v, q, e, rem, path, i, j - 1);
      assert Child([w], PtrTo(v, q, e), i, j - 1, rem, path).Seen?;
      assert InGrid(v, i, j - 1) && KidAgain(w, v, q, e, i, j - 1, rem, path);
    } else if i > 0 {
      SpentAgain(w, v, q, e, rem, path, i - 1, |v.rows[i - 1].kids|);
    }
    hide Object, CutOf, Child, PtrTo, AllSeen;
  }

  // ---- what a traversal finds is canonical, and cheaper to read than its source ------------

  /** The tree is truncated, within the nesting limit, and charged no more than was spent on it. */
  ghost predicate Canonical(v: Value, rem: nat, charged: nat, spent: nat) {
    Good(v) && Trimmed(v) && DeepEnough(v, rem) && charged <= spent
  }

  lemma {:induction false} WalkCanonical(m: Mem, p: Ptr, rem: nat, path: set<Key>)
    requires Sound(m, p) && Walk(m, p, rem, path).Seen?
    ensures var w := Walk(m, p, rem, path);
      Canonical(w.v, rem, AllCharges(w.v), w.cost) && Charge(w.v) <= Cost(p) && (w.v == Nil <==> p == Null)
    decreases rem, 2
  {
    WalkGood(m, p, rem, path);
    if p.Obj? {
      hide Canonical, Charge, Cost, Good, Found;
      FoundCanonical(m, p, rem, path + {KeyOf(p)});
      hide AllSeen, CutOf, Rows, Spent, Object;
    }
  }

  ghost predicate ChildCanonical(m: Mem, p: Ptr, i: nat, j: nat, rem: nat, path: set<Key>)
    requires Object(m, p) && i < p.shape.Elems() && j < p.shape.PtrWords()
  {
    var w := Child(m, p, i, j, rem, path);
    w.Seen? ==>
      && rem > 0 && Canonical(w.v, rem - 1, Charge(w.v) + AllCharges(w.v), w.cost)
      && (w.v == Nil <==> Col(m, p, i, p.shape.DataWords() + j) == 0)
  }

  lemma NilCanonical(rem: nat)
    ensures Canonical(Nil, rem, Charge(Nil) + AllCharges(Nil), 0)
  {
  }

  lemma {:induction false} ChildIsCanonical(m: Mem, p: Ptr, i: nat, j: nat, rem: nat, path: set<Key>)
    requires Object(m, p) && i < p.shape.Elems() && j < p.shape.PtrWords()
    ensures ChildCanonical(m, p, i, j, rem, path)
    decreases rem, 0
  {
    hide Target, Object, Cell, Good, Walk, Col, CutOf, Cost, Charge, Sound, Trimmed, DeepEnough;
    if Child(m, p, i, j, rem, path).Seen? {
      NilCanonical(rem - 1);
      if Col(m, p, i, p.shape.DataWords() + j) != 0 {
        WalkCanonical(m, Target(m, p, i, j).p, rem - 1, path);
      }
    }
  }

  lemma {:induction false} FoundCanonical(m: Mem, p: Ptr, rem: nat, path: set<Key>)
    requires Object(m, p) && AllSeen(m, p, rem, path)
    ensures var v := Found(m, p, rem, path);
      && Canonical(v, rem, AllCharges(v), Spent(m, p, rem, path, p.shape.Elems(), 0))
      && v.Tree? && Charge(v) <= Cost(p)
    decreases rem, 1
  {
    forall i, j | 0 <= i < p.shape.Elems() && 0 <= j < p.shape.PtrWords() ensures ChildCanonical(m, p, i, j, rem,
      path) {
      ChildIsCanonical(m, p, i, j, rem, path);
    }
    FoundFits(m, p, rem, path);
    FoundGood(m, p, rem, path);
    hide *;
    ChargeCut(m, p, rem, path);
    FoundTrimmed(m, p, rem, path);
    FoundDeep(m, p, rem, path);
    SpentCovers(m, p, rem, path, p.shape.Elems(), 0);
    CanonicalIs(m, p, rem, path);
  }

  lemma CanonicalIs(m: Mem, p: Ptr, rem: nat, path: set<Key>)
    requires Object(m, p) && Good(Found(m, p, rem, path)) && Trimmed(Found(m, p, rem, path))
      && DeepEnough(Found(m, p, rem, path), rem)
    requires Fits(Found(m, p, rem, path))
    requires Charges(Found(m, p, rem, path), p.shape.Elems(), 0) <= Spent(m, p, rem, path, p.shape.Elems(), 0)
    ensures var v := Found(m, p, rem, path); Canonical(v, rem, AllCharges(v),
      Spent(m, p, rem, path, p.shape.Elems(), 0))
  {
    hide Good, Trimmed, DeepEnough, Object, CutOf, Spent, Charges;
  }

  /** A truncated object costs no more to read than the object it was cut from. */
  lemma ChargeCut(m: Mem, p: Ptr, rem: nat, path: set<Key>)
    requires Object(m, p)
    ensures var v := Found(m, p, rem, path); v.Tree? && Charge(v) <= Cost(p)
  {
    var cut := CutOf(m, p);
    assert p.shape.Prim? || p.shape.PtrList? ==> cut == p.shape;
    assert p.shape.Struct? ==> cut.Struct?;
    assert p.shape.Composite? ==> cut.Composite? && cut.n == p.shape.n;
    if p.shape.Composite? {
      CompositeCharge(p.shape.n, cut.dw + cut.pw, p.shape.dw + p.shape.pw);
    }
    hide CutOf, Object, Rows;
  }

  lemma CompositeCharge(n: nat, a: nat, b: nat)
    requires a <= b
    ensures n * a <= n * b && (b > 0 ==> n <= n * b) && (n * a == 0 <==> n == 0 || a == 0)
  {
  }

  lemma FoundDeep(m: Mem, p: Ptr, rem: nat, path: set<Key>)
    requires Object(m, p) && AllSeen(m, p, rem, path) && Fits(Found(m, p, rem, path))
    requires forall i, j | 0 <= i < p.shape.Elems() && 0 <= j < p.shape.PtrWords() :: ChildCanonical(m, p, i, j, rem,
      path)
    ensures DeepEnough(Found(m, p, rem, path), rem)
  {
    var v := Found(m, p, rem, path);
    hide Object, CutOf, Found, Col;
    forall i, j | InGrid(v, i, j) ensures rem > 0 && DeepEnough(Kid(v, i, j), rem - 1) {
      FoundKid(m, p, rem, path, i, j);
      assert Child(m, p, i, j, rem, path).Seen? && ChildCanonical(m, p, i, j, rem, path);
    }
  }

  lemma {:induction false} SpentCovers(m: Mem, p: Ptr, rem: nat, path: set<Key>, i: nat, j: nat)
    requires Object(m, p) && AllSeen(m, p, rem, path) && Fits(Found(m, p, rem, path))
    requires i <= p.shape.Elems() && j <= CutOf(m, p).PtrWords() && (j > 0 ==> i < p.shape.Elems())
    requires forall i, j | 0 <= i < p.shape.Elems() && 0 <= j < p.shape.PtrWords() :: ChildCanonical(m, p, i, j, rem,
      path)
    ensures Charges(Found(m, p, rem, path), i, j) <= Spent(m, p, rem, path, i, j)
    decreases i, j
  {
    var v := Found(m, p, rem, path);
    hide Object, CutOf, Col, Good, Child, FoundRow;
    if j > 0 {
      SpentCovers(m, p, rem, path, i, j - 1);
      FoundKid(m, p, rem, path, i, j - 1);
      assert Child(m, p, i, j - 1, rem, path).Seen? && ChildCanonical(m, p, i, j - 1, rem, path);
    } else if i > 0 {
      SpentCovers(m, p, rem, path, i - 1, CutOf(m, p).PtrWords());
    }
  }

  lemma FoundTrimmed(m: Mem, p: Ptr, rem: nat, path: set<Key>)
    requires Object(m, p) && AllSeen(m, p, rem, path) && Good(Found(m, p, rem, path)) && Fits(Found(m, p, rem, path))
    requires forall i, j | 0 <= i < p.shape.Elems() && 0 <= j < p.shape.PtrWords() :: ChildCanonical(m, p, i, j, rem,
      path)
    ensures Trimmed(Found(m, p, rem, path))
  {
    var v := Found(m, p, rem, path);
    LastColumns(m, p, rem, path);
    forall i, j | InGrid(v, i, j) ensures Trimmed(Kid(v, i, j)) {
      FoundKid(m, p, rem, path, i, j);
      assert Child(m, p, i, j, rem, path).Seen? && ChildCanonical(m, p, i, j, rem, path);
    }
    hide Found, Object, CutOf, AllSeen, Good, ChildCanonical;
  }

  /** The last columns that are left are not zero. */
  lemma LastColumns(m: Mem, p: Ptr, rem: nat, path: set<Key>)
    requires Object(m, p) && AllSeen(m, p, rem, path) && Fits(Found(m, p, rem, path))
    requires forall i, j | 0 <= i < p.shape.Elems() && 0 <= j < p.shape.PtrWords() :: ChildCanonical(m, p, i, j, rem,
      path)
    ensures Cut(Found(m, p, rem, path)) == Found(m, p, rem, path).shape
  {
    var v := Found(m, p, rem, path);
    var zd, zk := ZeroData(v.rows, v.shape.DataWords()), NilKids(v.rows, v.shape.PtrWords());
    if p.shape.Struct? || p.shape.Composite? {
      CutEdges(m, p);
      if v.shape.DataWords() > 0 {
        LastData(m, p, rem, path);
      }
      if v.shape.PtrWords() > 0 {
        LastKid(m, p, rem, path);
      }
      TopIs(zd, v.shape.DataWords());
      TopIs(zk, v.shape.PtrWords());
    }
    assert CutOf(m, p) == v.shape && (p.shape.Prim? || p.shape.PtrList? ==> v.shape == p.shape);
    hide Top, ZeroData, NilKids, CutOf, Object, Found, AllSeen, Fits;
  }

  /** What is left of a struct or a composite list ends with columns that are not zero. */
  lemma CutEdges(m: Mem, p: Ptr)
    requires Object(m, p) && (p.shape.Struct? || p.shape.Composite?)
    ensures var cut := CutOf(m, p); (cut.Struct? <==> p.shape.Struct?) && (cut.Composite? <==> p.shape.Composite?)
    ensures var dw := CutOf(m, p).DataWords(); dw > 0 ==> !ZeroCol(m, p, dw - 1)
    ensures var pw := CutOf(m, p).PtrWords(); pw > 0 ==> !ZeroCol(m, p, p.shape.DataWords() + pw - 1)
  {
    hide ZeroCol, Object;
  }

  lemma LastData(m: Mem, p: Ptr, rem: nat, path: set<Key>)
    requires Object(m, p) && !p.shape.Prim? && Fits(Found(m, p, rem, path)) && CutOf(m, p).DataWords() > 0
    requires !ZeroCol(m, p, CutOf(m, p).DataWords() - 1)
    ensures var v, dw := Found(m, p, rem, path), CutOf(m, p).DataWords();
      && v.Tree? && v.shape.DataWords() == dw
      && !ZeroData(v.rows, dw)[dw - 1]
  {
    var v, c := Found(m, p, rem, path), CutOf(m, p).DataWords() - 1;
    hide CutOf, Child, Cell, Object;
    var i :| 0 <= i < p.shape.Elems() && Col(m, p, i, c) != 0;
    assert v.rows[i] == FoundRow(m, p, i, rem, path);
    assert v.rows[i].data[c] == Col(m, p, i, c);
  }

  lemma LastKid(m: Mem, p: Ptr, rem: nat, path: set<Key>)
    requires Object(m, p) && AllSeen(m, p, rem, path) && Fits(Found(m, p, rem, path)) && CutOf(m, p).PtrWords() > 0
    requires !ZeroCol(m, p, p.shape.DataWords() + CutOf(m, p).PtrWords() - 1)
    requires forall i, j | 0 <= i < p.shape.Elems() && 0 <= j < p.shape.PtrWords() :: ChildCanonical(m, p, i, j, rem,
      path)
    ensures var v, pw := Found(m, p, rem, path), CutOf(m, p).PtrWords();
      && v.Tree? && v.shape.PtrWords() == pw
      && !NilKids(v.rows, pw)[pw - 1]
  {
    var v, j := Found(m, p, rem, path), CutOf(m, p).PtrWords() - 1;
    var d := p.shape.DataWords() + j;
    assert v.Tree? && v.shape == CutOf(m, p);
    hide CutOf, Child, Object, Col, ChildCanonical, Found, Canonical, AllSeen, Rows, FoundRow;
    var i :| 0 <= i < p.shape.Elems() && Col(m, p, i, d) != 0;
    assert ChildCanonical(m, p, i, j, rem, path);
    KidIsThere(m, p, rem, path, i, j);
  }

  /** A pointer word that is not zero leads to something. */
  lemma KidIsThere(m: Mem, p: Ptr, rem: nat, path: set<Key>, i: nat, j: nat)
    requires Object(m, p) && AllSeen(m, p, rem, path) && Fits(Found(m, p, rem, path))
    requires i < p.shape.Elems() && j < CutOf(m, p).PtrWords() && ChildCanonical(m, p, i, j, rem, path)
    requires Col(m, p, i, p.shape.DataWords() + j) != 0
    ensures InGrid(Found(m, p, rem, path), i, j) && Kid(Found(m, p, rem, path), i, j) != Nil
  {
    assert Child(m, p, i, j, rem, path).Seen?;
    hide CutOf, Child, Object, Col, Canonical, AllSeen, Rows;
    FoundKid(m, p, rem, path, i, j);
  }
}
