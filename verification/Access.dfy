/**
 Reaching into an object: capn_getp, capn_get1 and capn_set1 (capn.c) and the inline accessors of capnp_c.h.
 A segment is an array of bytes here, and addresses count bytes.
 */
module Access {
  import opened Wire
  import opened Arena

  datatype Kind = StructKind | ListKind | PtrListKind | BitListKind

  /** The fields of a capn_ptr; in a bit list, `ptrs` is the bit of the first byte that the list starts with. */
  datatype View = View(kind: Kind, data: int, datasz: nat, ptrs: nat, len: nat)
  {
    /** Bytes that belong to the object. */
    function Extent(): nat {
      match kind
      case StructKind => datasz + 8 * ptrs
      case ListKind => len * (datasz + 8 * ptrs)
      case PtrListKind => 8 * len
      case BitListKind => (ptrs + len + 7) / 8
    }

    ghost predicate Covers(address: int, size: nat) {
      data <= address && address + size <= data + Extent()
    }
  }

  /** What read_ptr makes of an object. */
  function ViewOf(p: Ptr): View
    requires p.Obj?
  {
    match p.shape
    case Struct(dw, pw) => View(StructKind, 8 * p.data, 8 * dw, pw, 0)
    case Prim(code, n) =>
      if code == 1 then View(BitListKind, 8 * p.data, (n + 7) / 8, 0, n)
      else View(ListKind, 8 * p.data, ElemBits(code) / 8, 0, n)
    case PtrList(n) => View(PtrListKind, 8 * p.data, 0, 0, n)
    case Composite(n, dw, pw) => View(ListKind, 8 * p.data, 8 * dw, pw, n)
  }

  /** A pointer that read_ptr accepts views just the object's bytes, inside the segment. */
  lemma ViewInside(m: Mem, p: Ptr)
    requires p.Obj? && Inside(m, p)
    ensures ViewOf(p).Extent() == Bytes(p.shape)
    ensures 0 <= ViewOf(p).data && ViewOf(p).data + ViewOf(p).Extent() <= 8 * |m[p.seg]|
  {
    ViewBytes(p);
    if p.shape.Prim? {
      PrimExtent(p.shape.code, p.shape.n);
    }
  }

  lemma ViewBytes(p: Ptr)
    requires p.Obj?
    ensures ViewOf(p).Extent() == Bytes(p.shape)
  {
    match p.shape
    case Struct(_, _) =>
    case PtrList(_) =>
    case Prim(code, n) => PrimExtent(code, n);
    case Composite(n, dw, pw) => Scaled(n, dw + pw);
  }

  lemma Scaled(n: nat, stride: nat)
    ensures n * (8 * stride) == 8 * (n * stride)
  {
  }

  lemma PrimExtent(code: ElemCode, n: nat)
    ensures code != 1 ==> n * (ElemBits(code) / 8) == (ElemBits(code) * n + 7) / 8
    ensures (ElemBits(code) * n + 7) / 8 <= 8 * ((ElemBits(code) * n + 63) / 64)
  {
  }

  // ---- what the traversal limit is for ------------------------------------------------------

  /** What somebody gets to look at: bytes, or elements without any, which count as a word each. */
  function Weight(v: View): nat { if v.Extent() > 0 then v.Extent() else 8 * v.len }

  /** A read is charged what it lets its caller look at. */
  lemma CostIsWeight(p: Ptr)
    ensures Cost(p) == if p.Obj? then Weight(ViewOf(p)) else 0
  {
    if p.Obj? {
      ViewBytes(p);
      hide View.Extent, Bytes;
    }
  }

  /** A call of read_ptr. */
  datatype Request = Request(seg: nat, slot: nat, rem: nat)

  function Weights(ps: seq<Ptr>): nat {
    if ps == [] then 0
    else Weights(ps[..|ps| - 1]) + if ps[|ps| - 1].Obj? then Weight(ViewOf(ps[|ps| - 1])) else 0
  }

  /**
   What a call hands out is what the slot means; it hands out nothing where there is an object only if no nesting is
   left or the object does not fit the limit.
   */
  ghost predicate Served(m: Mem, r: Request, p: Ptr, used: nat, limit: nat)
    requires r.seg < |m|
  {
    if p != Null then r.rem > 0 && ReadSlot(m, r.seg, r.slot) == Got(p)
    else
      var q := ReadSlot(m, r.seg, r.slot);
      r.rem > 0 && q.Got? && q.p.Obj? ==> used + Weight(ViewOf(q.p)) > limit
  }

  /** Whatever is read, how often and in whatever order: all that read_ptr has handed out stays within the limit. */
  method ReadAll(c: Capn, requests: seq<Request>) returns (ps: seq<Ptr>)
    requires c.Valid() && c.traversalUsed <= c.traversalLimit
    requires forall i | 0 <= i < |requests| :: requests[i].seg < |c.segs|
    modifies c`traversalUsed, c`decodeErr
    ensures |ps| == |requests| && c.traversalUsed == old(c.traversalUsed) + Weights(ps) <= c.traversalLimit
    ensures forall i | 0 <= i < |ps| ::
      Served(c.Mem(), requests[i], ps[i], old(c.traversalUsed) + Weights(ps[..i]), c.traversalLimit)
  {
    hide Weights, Served, Weight, ViewOf, MemOf, Cost, ReadSlot;
    ps := [];
    ghost var m, start := c.Mem(), c.traversalUsed;
    assert Weights([]) == 0 by { NoWeight(); }
    for n := 0 to |requests|
      invariant |ps| == n && c.Mem() == m && c.traversalUsed == start + Weights(ps) <= c.traversalLimit
      invariant forall i | 0 <= i < n :: Served(m, requests[i], ps[i], start + Weights(ps[..i]), c.traversalLimit)
    {
      ghost var before := ps;
      var p := ReadOne(c, requests[n]);
      OneWeight(ps, p);
      ps := ps + [p];
      forall i | 0 <= i < n + 1
        ensures Served(m, requests[i], ps[i], start + Weights(ps[..i]), c.traversalLimit)
      {
        assert ps[..i] == before[..i];
      }
    }
  }

  /** One of the calls. */
  method ReadOne(c: Capn, r: Request) returns (p: Ptr)
    requires c.Valid() && r.seg < |c.segs| && c.traversalUsed <= c.traversalLimit
    modifies c`traversalUsed, c`decodeErr
    ensures c.traversalUsed == old(c.traversalUsed) + (if p.Obj? then Weight(ViewOf(p)) else 0) <= c.traversalLimit
    ensures Served(c.Mem(), r, p, old(c.traversalUsed), c.traversalLimit)
  {
    hide ReadSlot, Cost, Weight, ViewOf, MemOf, Inside;
    p := c.ReadPtr(r.seg, r.slot, r.rem);
    CostIsWeight(p);
    if ReadSlot(c.Mem(), r.seg, r.slot).Got? {
      CostIsWeight(ReadSlot(c.Mem(), r.seg, r.slot).p);
    }
  }

  lemma NoWeight()
    ensures Weights([]) == 0
  {
  }

  lemma OneWeight(ps: seq<Ptr>, p: Ptr)
    ensures Weights(ps + [p]) == Weights(ps) + if p.Obj? then Weight(ViewOf(p)) else 0
  {
    assert (ps + [p])[..|ps|] == ps;
  }

  // ---- capn_getp ----------------------------------------------------------------------------

  /** An element to look into, a pointer slot to read, or nothing. */
  datatype Element = Nothing | Inner(view: View) | Slot(address: int)

  function GetP(v: View, off: int, resolve: bool): Element {
    match v.kind
    case ListKind =>
      if off < v.len then Inner(View(StructKind, v.data + off * (v.datasz + 8 * v.ptrs), v.datasz, v.ptrs, 0))
      else Nothing
    case BitListKind =>
      if off < 0 || off >= v.len then Nothing
      else Inner(View(BitListKind, v.data + (off + v.ptrs) / 8, 1, (off + v.ptrs) % 8, 1))
    case StructKind => if off >= v.ptrs then Nothing else Slot(v.data + v.datasz + 8 * off)
    case PtrListKind =>
      if off >= v.len then Nothing
      else if !resolve then Inner(View(StructKind, v.data + 8 * off, 0, 1, 0))
      else Slot(v.data + 8 * off)
  }

  /**
   What capn_getp finds in an object that read_ptr has handed out, by the words of the segment: element or pointer
   number off, counted from the front. A struct list may be a pointer list on the wire; an entry is then a struct of
   one pointer, which is found in turn.
   */
  lemma Elements(p: Ptr, off: nat, resolve: bool)
    requires p.Obj?
    ensures var e := GetP(ViewOf(p), off, resolve);
      match p.shape
      case Struct(dw, pw) => e == if off < pw then Slot(8 * (p.data + dw + off)) else Nothing
      case Composite(n, dw, pw) =>
        e == if off < n then Inner(View(StructKind, 8 * (p.data + off * (dw + pw)), 8 * dw, pw, 0)) else Nothing
      case PtrList(n) =>
        if off >= n then e == Nothing
        else if resolve then e == Slot(8 * (p.data + off))
        else
          && e.Inner? && e.view.kind == StructKind && e.view.datasz == 0
          && GetP(e.view, 0, true) == Slot(8 * (p.data + off)) && GetP(e.view, 1, true) == Nothing
      case Prim(code, n) =>
        if off >= n then e == Nothing
        else if code == 1 then
          e.Inner? && e.view.kind == BitListKind && e.view.len == 1 && FirstBit(e.view) == 64 * p.data + off
        else
          && e.Inner? && e.view.kind == StructKind && e.view.ptrs == 0
          && 8 * e.view.datasz == ElemBits(code) && FirstBit(e.view) == 64 * p.data + off * ElemBits(code)
  {
    match p.shape
    case Composite(n, dw, pw) => Scaled(off, dw + pw);
    case Prim(code, n) => WholeBytes(code, off);
    case _ =>
  }

  /** Where the object's data starts, in bits of the segment. */
  function FirstBit(v: View): int { 8 * v.data + if v.kind == BitListKind then v.ptrs else 0 }

  lemma WholeBytes(code: ElemCode, off: nat)
    ensures code != 1 ==> 8 * (ElemBits(code) / 8) == ElemBits(code)
    ensures code != 1 ==> 8 * (off * (ElemBits(code) / 8)) == off * ElemBits(code)
  {
  }

  /** Where pointers or elements start. */
  function First(v: View): int { if v.kind == StructKind then v.data + v.datasz else v.data }

  ghost predicate Safe(v: View, e: Element) {
    match e
    case Nothing => true
    case Inner(w) => First(v) <= w.data && v.Covers(w.data, w.Extent())
    case Slot(a) => First(v) <= a && v.Covers(a, 8)
  }

  /**
   What capn_getp reaches lies among the object's elements or pointers just if the index is not negative: only
   the bit list looks at the sign, and elements of no bytes cannot be missed.
   */
  lemma GetPSafe(v: View, off: int, resolve: bool)
    ensures Safe(v, GetP(v, off, resolve)) <==>
      off >= 0 || GetP(v, off, resolve).Nothing? || (v.kind == ListKind && v.datasz + 8 * v.ptrs == 0)
  {
    match v.kind
    case ListKind => if off < v.len { ElementSafe(v.len, v.datasz + 8 * v.ptrs, off); }
    case BitListKind => if 0 <= off < v.len { BitInside(v.ptrs, v.len, off); }
    case _ =>
  }

  lemma ElementSafe(len: nat, stride: nat, off: int)
    requires off < len
    ensures 0 <= off ==> 0 <= off * stride && off * stride + stride <= len * stride
    ensures off < 0 ==> off * stride <= 0 - stride && (stride == 0 ==> off * stride == 0)
  {
    if off >= 0 {
      assert off * stride + stride == (off + 1) * stride;
      Monotone(off + 1, len, stride);
    } else {
      Monotone(off, -1, stride);
    }
  }

  lemma Monotone(a: int, b: int, k: nat)
    requires a <= b
    ensures a * k <= b * k
  {
  }

  lemma BitInside(first: nat, len: nat, off: nat)
    requires off < len
    ensures (first + off) / 8 + ((first + off) % 8 + 1 + 7) / 8 <= (first + len + 7) / 8
  {
  }

  // ---- single bits --------------------------------------------------------------------------

  function Mask(k: nat): bv8
    requires k < 8
  {
    if k == 0 then 1 else if k == 1 then 2 else if k == 2 then 4 else if k == 3 then 8
    else if k == 4 then 16 else if k == 5 then 32 else if k == 6 then 64 else 128
  }

  function WithBit(b: bv8, k: nat, val: bool): bv8
    requires k < 8
  {
    if val then b | Mask(k) else b & !Mask(k)
  }

  predicate Bit(b: bv8, k: nat)
    requires k < 8
  {
    b & Mask(k) != 0
  }

  /** Bit k is worth 2^k. */
  lemma BitValue(b: bv8, k: nat)
    requires k < 8
    ensures Bit(b, k) <==> (b >> k) & 1 == 1
  {
  }

  lemma BitSet(b: bv8, k: nat, val: bool, j: nat)
    requires k < 8 && j < 8
    ensures Bit(WithBit(b, k, val), j) == if j == k then val else Bit(b, j)
  {
  }

  datatype Place = NoPlace | At(address: int, bit: nat)

  /** The bit of list entry off, where the list has one. */
  function BitAt(v: View, off: int): Place {
    if off < 0 || off >= v.len then NoPlace
    else match v.kind
      case BitListKind => At(v.data + (off + v.ptrs) / 8, (off + v.ptrs) % 8)
      case ListKind => if v.datasz < 1 then NoPlace else At(v.data + off * (v.datasz + 8 * v.ptrs), 0)
      case _ => NoPlace
  }

  datatype Target = NoObject | Object(view: View)

  /** The bit that capn_get1 and capn_set1 use; in a pointer list it is the first of what the entry points to. */
  function ListBit(v: View, off: int, target: Target): Place {
    if v.kind != PtrListKind then BitAt(v, off)
    else if off < 0 || off >= v.len || target.NoObject? then NoPlace
    else if target.view.kind == StructKind && target.view.datasz >= 1 then At(target.view.data, 0)
    else if target.view.kind == BitListKind then BitAt(target.view, 0)
    else NoPlace
  }

  /** The bit is inside the list or the object its entry points to. */
  lemma ListBitInside(v: View, off: int, target: Target)
    requires ListBit(v, off, target).At?
    ensures var at := ListBit(v, off, target);
      at.bit < 8 && (v.Covers(at.address, 1) || (target.Object? && target.view.Covers(at.address, 1)))
  {
    if v.kind != PtrListKind {
      BitsApart(v, off, off);
    } else if target.view.kind == BitListKind {
      BitsApart(target.view, 0, 0);
    }
  }

  /** Entries have bits of their own, inside the list. */
  lemma BitsApart(v: View, i: int, j: int)
    requires BitAt(v, i).At? && BitAt(v, j).At?
    ensures BitAt(v, i).bit < 8 && v.Covers(BitAt(v, i).address, 1)
    ensures i != j ==> BitAt(v, i) != BitAt(v, j)
  {
    if v.kind == BitListKind {
      BitInside(v.ptrs, v.len, i);
    } else {
      var stride := v.datasz + 8 * v.ptrs;
      ElementSafe(v.len, stride, i);
      if i < j {
        ElementSafe(j, stride, i);
      } else if j < i {
        ElementSafe(i, stride, j);
      }
    }
  }

  /** The bit of an entry: the one with its number in a bit list, the first one of the element otherwise. */
  lemma EntryBit(v: View, off: int, target: Target)
    ensures var at := ListBit(v, off, target);
      match v.kind
      case BitListKind =>
        if 0 <= off < v.len then at.At? && at.bit < 8 && 8 * at.address + at.bit == FirstBit(v) + off else at == NoPlace
      case ListKind =>
        if 0 <= off < v.len && v.datasz > 0
        then at.At? && GetP(v, off, true).Inner? && at.bit == 0 && 8 * at.address == FirstBit(GetP(v, off, true).view)
        else at == NoPlace
      case PtrListKind =>
        if 0 <= off < v.len && target.Object? && HasBit(target.view)
        then at.At? && at.bit < 8 && 8 * at.address + at.bit == FirstBit(target.view)
        else at == NoPlace
      case StructKind => at == NoPlace
  {
  }

  /** A struct with data, or a bit list with an entry. */
  predicate HasBit(v: View) {
    match v.kind
    case StructKind => v.datasz > 0
    case BitListKind => v.len > 0
    case _ => false
  }

  ghost predicate In(v: View, size: nat) { 0 <= v.data && v.data + v.Extent() <= size }

  ghost predicate TargetIn(t: Target, size: nat) { t.Object? ==> In(t.view, size) }

  /** capn_get1; `target` is what read_ptr makes of entry off of a pointer list. */
  method Get1(bytes: array<bv8>, v: View, off: int, target: Target) returns (val: bool)
    requires In(v, bytes.Length) && TargetIn(target, bytes.Length)
    ensures var at := ListBit(v, off, target);
      val == (at.At? && 0 <= at.address < bytes.Length && at.bit < 8 && Bit(bytes[at.address], at.bit))
    ensures ListBit(v, off, target).At? ==> 0 <= ListBit(v, off, target).address < bytes.Length
  {
    var at := ListBit(v, off, target);
    if at.NoPlace? {
      return false;
    }
    ListBitInside(v, off, target);
    val := Bit(bytes[at.address], at.bit);
  }

  /** capn_set1 */
  method Set1(bytes: array<bv8>, v: View, off: int, val: bool, target: Target) returns (ok: bool)
    requires In(v, bytes.Length) && TargetIn(target, bytes.Length)
    modifies bytes
    ensures ok == ListBit(v, off, target).At? && (!ok ==> bytes[..] == old(bytes[..]))
    ensures ok ==>
      var at := ListBit(v, off, target);
      && 0 <= at.address < bytes.Length && at.bit < 8
      && bytes[..] == old(bytes[..])[at.address := WithBit(old(bytes[at.address]), at.bit, val)]
  {
    var at := ListBit(v, off, target);
    if at.NoPlace? {
      return false;
    }
    ListBitInside(v, off, target);
    bytes[at.address] := WithBit(bytes[at.address], at.bit, val);
    ok := true;
  }

  /** The bit that is set reads as set, through whatever list it is read, and no other bit changes. */
  lemma PlaceThenGet(bytes: seq<bv8>, at: Place, val: bool, other: Place)
    requires at.At? && other.At? && 0 <= at.address < |bytes| && 0 <= other.address < |bytes|
    requires at.bit < 8 && other.bit < 8
    ensures var after := bytes[at.address := WithBit(bytes[at.address], at.bit, val)];
      Bit(after[other.address], other.bit) == if other == at then val else Bit(bytes[other.address], other.bit)
  {
    BitSet(bytes[at.address], at.bit, val, other.bit);
    hide WithBit, Bit;
  }

  /**
   An entry that is set reads as set; every other entry of any list reads as before, unless it uses the same bit,
   which two entries of one list do only if it is a pointer list.
   */
  lemma SetThenGet(bytes: seq<bv8>, v: View, i: int, t: Target, val: bool, v': View, j: int, t': Target)
    requires In(v, |bytes|) && TargetIn(t, |bytes|) && In(v', |bytes|) && TargetIn(t', |bytes|)
    requires ListBit(v, i, t).At? && ListBit(v', j, t').At?
    ensures var at, other := ListBit(v, i, t), ListBit(v', j, t');
      && 0 <= at.address < |bytes| && 0 <= other.address < |bytes| && at.bit < 8 && other.bit < 8
      && var after := bytes[at.address := WithBit(bytes[at.address], at.bit, val)];
      Bit(after[other.address], other.bit) == if other == at then val else Bit(bytes[other.address], other.bit)
    ensures v' == v && v.kind != PtrListKind && i != j ==> ListBit(v, i, t) != ListBit(v', j, t')
  {
    ListBitInside(v, i, t);
    ListBitInside(v', j, t');
    if v' == v && v.kind != PtrListKind {
      BitsApart(v, i, j);
    }
    hide View.Extent, BitAt, WithBit, Bit;
    PlaceThenGet(bytes, ListBit(v, i, t), val, ListBit(v', j, t'));
  }

  // ---- fields -------------------------------------------------------------------------------

  /** Where a field of k bytes is, if capn_readN and capn_writeN let it through. */
  function Field(v: View, off: int, k: nat): Place {
    if off + k <= v.datasz then At(v.data + off, 0) else NoPlace
  }

  /** A field that is let through is in the data section just if its offset is not negative. */
  lemma FieldSafe(v: View, off: int, k: nat)
    requires Field(v, off, k).At? && v.kind == StructKind
    ensures off >= 0 <==> v.Covers(Field(v, off, k).address, k) && Field(v, off, k).address + k <= v.data + v.datasz
  {
  }

  /** capn_write1: the bit of a boolean field, wherever the offset is not too large. */
  function FlagAt(v: View, off: int): Place {
    if off >= 8 * v.datasz then NoPlace else At(v.data + off / 8, off % 8)
  }

  lemma FlagSafe(v: View, off: int)
    requires FlagAt(v, off).At? && v.kind == StructKind
    ensures FlagAt(v, off).bit < 8
    ensures off >= 0 <==> v.data <= FlagAt(v, off).address && FlagAt(v, off).address < v.data + v.datasz
  {
  }

  /** Flags are the bits of the bytes that fields are made of, least significant first. */
  lemma FlagInField(v: View, off: int, k: nat, i: nat)
    requires v.kind == StructKind && i < 8 * k
    ensures FlagAt(v, i).At? <==> i < 8 * v.datasz
    ensures FlagAt(v, i).At? ==> 8 * FlagAt(v, i).address + FlagAt(v, i).bit == FirstBit(v) + i
    ensures Field(v, off, k).At? <==> off + k <= v.datasz
    ensures Field(v, off, k).At? ==>
      && 8 * Field(v, off, k).address == FirstBit(v) + 8 * off
      && FlagAt(v, 8 * off + i) == At(Field(v, off, k).address + i / 8, i % 8)
  {
  }

  function Stored(bytes: seq<bv8>, a: nat, value: seq<bv8>): seq<bv8>
    requires a + |value| <= |bytes|
  {
    bytes[..a] + value + bytes[a + |value|..]
  }

  /** capn_write8, 16, 32 and 64; a value is its little-endian bytes. */
  method Write(bytes: array<bv8>, v: View, off: nat, value: seq<bv8>) returns (ok: bool)
    requires In(v, bytes.Length) && v.kind == StructKind
    modifies bytes
    ensures ok == Field(v, off, |value|).At?
    ensures ok ==> bytes[..] == Stored(old(bytes[..]), v.data + off, value)
    ensures !ok ==> bytes[..] == old(bytes[..])
  {
    if off + |value| > v.datasz {
      return false;
    }
    var a := v.data + off;
    forall i | 0 <= i < |value| {
      bytes[a + i] := value[i];
    }
    ok := true;
  }

  /** capn_read8, 16, 32 and 64: a field outside the data section reads as 0. */
  method Read(bytes: array<bv8>, v: View, off: nat, k: nat) returns (value: seq<bv8>)
    requires In(v, bytes.Length) && v.kind == StructKind
    ensures value == if Field(v, off, k).At? then bytes[v.data + off..v.data + off + k] else seq(k, _ => 0)
  {
    value := if off + k <= v.datasz then bytes[v.data + off..v.data + off + k] else seq(k, _ => 0);
  }

  /** A field that is written reads back, and what is beside it does not change. */
  lemma WriteThenRead(bytes: seq<bv8>, a: nat, value: seq<bv8>, b: nat, n: nat)
    requires a + |value| <= |bytes| && b + n <= |bytes|
    ensures var after := Stored(bytes, a, value);
      && |after| == |bytes| && after[a..a + |value|] == value
      && (b + n <= a || a + |value| <= b ==> after[b..b + n] == bytes[b..b + n])
  {
    var after := Stored(bytes, a, value);
    if b + n <= a || a + |value| <= b {
      forall i | b <= i < b + n ensures after[i] == bytes[i] {
      }
    }
  }
}
