/** Element access, the validator and the canonicalizer each find their own way to a pointer; it is the same one. */
module Layout {
  import opened Wire
  import opened Arena
  import opened Access
  import CanonValue
  import Validate

  /** What capn_getp makes of pointer j of element i; structs and pointer lists are elements of themselves. */
  function PointerOf(p: Ptr, i: nat, j: nat): Element
    requires p.Obj?
  {
    if !p.shape.Composite? then GetP(ViewOf(p), j, true)
    else
      var e := GetP(ViewOf(p), i, true);
      if e.Inner? then GetP(e.view, j, true) else Nothing
  }

  /** The slot that capn_getp derives is child i * pw + j of capn_validate and column dw + j of the canonicalizer. */
  lemma SlotsAgree(p: Ptr, i: nat, j: nat) returns (idx: nat)
    requires p.Obj? && p.shape.Extra() <= p.data && i < p.shape.Elems() && j < p.shape.PtrWords()
    ensures idx < Validate.Children(p) && PointerOf(p, i, j) == Slot(8 * Validate.ChildSlot(p, idx))
    ensures Validate.ChildSlot(p, idx)
      == CanonValue.At(p.shape, p.data - p.shape.Extra(), i, p.shape.DataWords() + j)
  {
    idx := Validate.EveryPointer(p, i, j);
    PointerIs(p, i, j);
    hide Validate.Children, Validate.ChildSlot, PointerOf;
    hide Shape.Elems, Shape.DataWords, Shape.PtrWords, Shape.Extra;
  }

  lemma PointerIs(p: Ptr, i: nat, j: nat)
    requires p.Obj? && i < p.shape.Elems() && j < p.shape.PtrWords()
    ensures PointerOf(p, i, j) == Slot(8 * (p.data + i * p.shape.Stride() + p.shape.DataWords() + j))
  {
    match p.shape
    case Composite(n, dw, pw) =>
      Elements(p, i, true);
      InElement(p.data + i * (dw + pw), dw, pw, j);
      hide GetP;
    case Prim(_, _) =>
    case Struct(dw, pw) =>
      OnlyElement(i, dw + pw);
      Elements(p, j, true);
    case PtrList(n) =>
      OnlyElement(i, n);
      Elements(p, j, true);
  }

  lemma OnlyElement(i: nat, k: nat)
    ensures i == 0 ==> i * k == 0
  {
  }

  lemma InElement(at: nat, dw: nat, pw: nat, j: nat)
    requires j < pw
    ensures GetP(View(StructKind, 8 * at, 8 * dw, pw, 0), j, true) == Slot(8 * (at + dw + j))
  {
  }

  /** Where there is no such pointer capn_getp finds nothing. */
  lemma NoSlot(p: Ptr, i: nat, j: nat)
    requires p.Obj? && !p.shape.Prim? && (p.shape.Composite? ==> i >= p.shape.Elems() || j >= p.shape.PtrWords())
    requires !p.shape.Composite? ==> j >= p.shape.PtrWords()
    ensures PointerOf(p, i, j) == Nothing
  {
  }

  /** The data of element i starts at the canonicalizer's column 0, and there is as much of it. */
  lemma DataAgrees(p: Ptr, i: nat)
    requires p.Obj? && p.shape.Extra() <= p.data && p.shape.Composite? && i < p.shape.Elems() && p.shape.dw > 0
    ensures var e := GetP(ViewOf(p), i, true);
      && e.Inner? && e.view.kind == StructKind && e.view.datasz == 8 * p.shape.DataWords()
      && e.view.data == 8 * CanonValue.At(p.shape, p.data - p.shape.Extra(), i, 0)
  {
    Elements(p, i, true);
    hide GetP;
  }

  /** What the visited set takes for one object: the type of a capn_ptr, its place, and whether it is composite. */
  lemma KeysCompare(p: Ptr, q: Ptr)
    requires p.Obj? && q.Obj?
    ensures KeyOf(p) == KeyOf(q) <==>
      && p.seg == q.seg && ViewOf(p).data == ViewOf(q).data && ViewOf(p).kind == ViewOf(q).kind
      && (p.shape.Composite? <==> q.shape.Composite?)
  {
  }
}
