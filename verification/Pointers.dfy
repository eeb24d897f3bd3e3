/** Writing pointers: write_ptr and the allocation behind it in capn.c. */
module Pointers {
  import opened Wire
  import opened Arena
  import opened Powers

  /** The pointer word for an object of this shape that lies `off + 1` words behind the pointer. */
  function TagPointer(shape: Shape, off: int): (p: Pointer)
    requires shape.Encodable() && -B29 <= off < B29
    ensures p.Valid()
  {
    match shape
    case Struct(dw, pw) => StructPtr(off, dw, pw)
    case Prim(code, n) => ListPtr(off, code, n)
    case PtrList(n) => ListPtr(off, 6, n)
    case Composite(n, dw, pw) => ListPtr(off, 7, n * (dw + pw))
  }

  predicate InRange(off: int) { -B29 <= off < B29 }

  /** Where the object starts, a composite list's tag included. */
  function Start(p: Ptr): int
    requires p.Obj?
  {
    p.data - p.shape.Extra()
  }

  /**
   What holds of every object pointer of a session: the object lies in its segment, a composite list
   has its tag in front, and so has an object marked as having a landing tag.
   */
  ghost predicate Denotes(m: Mem, p: Ptr) {
    p.Obj? ==>
      && Inside(m, p) && !p.shape.EmptyStruct()
      && (p.shape.Composite? ==> TagShape(m[p.seg][p.data - 1]) == p.shape)
      && (p.tagged ==> Start(p) >= 1 && m[p.seg][Start(p) - 1] == Encode(TagPointer(p.shape, 0)))
  }

  /** read_ptr refuses bit lists of 2^19 bytes and more. */
  predicate Readable(shape: Shape) { shape.Prim? && shape.code == 1 ==> (shape.n + 7) / 8 <= MAX_BIT_BYTES }

  /** How a pointer to the object reads. */
  function Landed(p: Ptr, tagged: bool): Read
    requires p.Obj?
  {
    if Readable(p.shape) then Got(p.(tagged := tagged)) else Broken
  }

  lemma CompositeTagReads(n: nat, dw: nat, pw: nat)
    requires n < B30 && dw < B16 && pw < B16
    ensures TagShape(CompositeTag(n, dw, pw)) == Composite(n, dw, pw)
  {
    hide Lo, Hi;
    JoinSplits(4 * n, dw + B16 * pw);
  }

  /** A pointer with the object's shape and offset, wherever it is counted from, reads as the object. */
  lemma TagReads(m: Mem, p: Ptr, d: int, off: int, far: bool)
    requires p.Obj? && Denotes(m, p) && InRange(off) && Start(p) == d + off + 1
    ensures ReadAt(m, p.seg, d, TagPointer(p.shape, off), far) == Landed(p, far && off == 0)
  {
    if p.shape.Composite? {
      CompositeSize(p.shape);
      hide TagShape;
    }
  }

  /** Whatever a slot reads as, unless it is an empty struct, is a good object pointer. */
  lemma ReadDenotes(m: Mem, s: nat, d: nat)
    requires s < |m| && ReadSlot(m, s, d).Got? && ReadSlot(m, s, d).p.Obj? && !ReadSlot(m, s, d).p.shape.EmptyStruct()
    ensures Denotes(m, ReadSlot(m, s, d).p)
  {
    hide Decode, Encode, TagShape, TagPointer, ReadAt;
    var first := Decode(m[s][d]);
    if !first.FarPtr? {
      AtDenotes(m, s, d, first, false);
    } else if !first.double {
      EncodeDecode(m[first.seg][first.pos]);
      AtDenotes(m, first.seg, first.pos, Decode(m[first.seg][first.pos]), true);
    } else {
      var far, tag := Decode(m[first.seg][first.pos]), Decode(m[first.seg][first.pos + 1]);
      match tag
      case StructPtr(0, dw, pw) => AtDenotes(m, far.seg, -1, StructPtr(far.pos, dw, pw), false);
      case ListPtr(0, code, n) => AtDenotes(m, far.seg, -1, ListPtr(far.pos, code, n), false);
      case _ =>
    }
  }

  lemma AtDenotes(m: Mem, s: nat, d: int, p: Pointer, far: bool)
    requires s < |m| && p.Valid() && ReadAt(m, s, d, p, far).Got?
    requires ReadAt(m, s, d, p, far).p.Obj? && !ReadAt(m, s, d, p, far).p.shape.EmptyStruct()
    requires far ==> 0 <= d < |m[s]| && m[s][d] == Encode(p)
    ensures Denotes(m, ReadAt(m, s, d, p, far).p)
  {
    hide Encode;
    if p.ListPtr? && p.code == 7 {
      CompositeSize(ReadAt(m, s, d, p, far).p.shape);
    }
  }

  lemma CompositeSize(shape: Shape)
    requires shape.Composite?
    ensures shape.Size() == shape.n * (shape.dw + shape.pw)
  {
  }

  // ---- the four placements, as changes of the message --------------------------------------

  function SetWord(m: Mem, s: nat, d: nat, w: word): Mem
    requires s < |m| && d < |m[s]|
  {
    m[s := PutWord(m[s], d, w)]
  }

  function PutWord(ws: seq<word>, d: nat, w: word): seq<word>
    requires d < |ws|
  {
    ws[d := w]
  }

  function Extend(m: Mem, s: nat, ws: seq<word>): Mem
    requires s < |m|
  {
    m[s := m[s] + ws]
  }

  /** The slot is not the tag in front of the object. */
  ghost predicate SlotApart(p: Ptr, s: nat, d: nat) {
    p.Obj? ==> !(p.seg == s && p.shape.Composite? && d == p.data - 1)
  }

  /** A pointer counted from the slot itself reads as the object. */
  lemma NearReads(m: Mem, d: nat, p: Ptr, off: int)
    requires p.Obj? && Denotes(m, p) && d < |m[p.seg]| && InRange(off) && Start(p) == d + off + 1
    requires m[p.seg][d] == Encode(TagPointer(p.shape, off))
    ensures ReadSlot(m, p.seg, d) == Landed(p, false)
  {
    DecodeEncode(TagPointer(p.shape, off));
    TagReads(m, p, d, off, false);
    hide ReadAt, Decode, Encode;
  }

  /** Writing a slot that is not its tag, or appending words, leaves an object pointer good. */
  lemma DenotesAfterSet(m: Mem, s: nat, d: nat, w: word, p: Ptr)
    requires p.Obj? && Denotes(m, p) && s < |m| && d < |m[s]| && SlotApart(p, s, d)
    ensures Denotes(SetWord(m, s, d, w), p.(tagged := false))
  {
    hide Encode, TagPointer, TagShape;
  }

  lemma DenotesAfterExtend(m: Mem, s: nat, ws: seq<word>, p: Ptr)
    requires p.Obj? && Denotes(m, p) && s < |m|
    ensures Denotes(Extend(m, s, ws), p)
  {
    hide Encode, TagPointer, TagShape;
  }

  // ---- far pointer words ------------------------------------------------------------------

  /** a | b */
  function Or(a: nat, b: nat): nat {
    if a == 0 then b
    else if b == 0 then a
    else (if a % 2 == 1 || b % 2 == 1 then 1 else 0) + 2 * Or(a / 2, b / 2)
  }

  lemma {:induction false} OrFits(a: nat, b: nat, k: nat)
    requires a < Pow2(k) && b < Pow2(k)
    ensures Or(a, b) < Pow2(k)
  {
    if a > 0 && b > 0 {
      OrFits(a / 2, b / 2, k - 1);
    }
  }

  /** A bit is there if it is in either number. */
  lemma {:induction false} OrBit(a: nat, b: nat, k: nat)
    ensures Or(a, b) / Pow2(k) % 2 == 1 <==> a / Pow2(k) % 2 == 1 || b / Pow2(k) % 2 == 1
  {
    if a > 0 && b > 0 {
      OrHalves(a, b);
      if k > 0 {
        OrBit(a / 2, b / 2, k - 1);
        Halved(a, Pow2(k - 1));
        Halved(b, Pow2(k - 1));
        Halved(Or(a, b), Pow2(k - 1));
      }
    }
  }

  lemma OrHalves(a: nat, b: nat)
    requires a > 0 && b > 0
    ensures Or(a, b) / 2 == Or(a / 2, b / 2) && (Or(a, b) % 2 == 1 <==> a % 2 == 1 || b % 2 == 1)
  {
  }

  /** write_far_ptr and write_double_far: kind, position in bytes and segment id in one word, whatever overlaps. */
  function FarWord(double: bool, pos: nat, seg: nat): (w: word)
    requires seg < B32
  {
    Pow2Of32();
    OrFits(8 * pos / B32 % B32, seg, 32);
    Join((if double then 6 else 2) + 8 * pos % B32, Or(8 * pos / B32 % B32, seg))
  }

  /** The word says what it should just if the position has 29 bits; what is above them gets into the segment id. */
  lemma FarWordReads(double: bool, pos: nat, seg: nat)
    requires seg < B32
    ensures Decode(FarWord(double, pos, seg)) == FarPtr(double, pos % B29, Or(8 * pos / B32 % B32, seg))
    ensures Decode(FarWord(double, pos, seg)) == FarPtr(double, pos, seg) <==> pos < B29
  {
    var hi := Or(8 * pos / B32 % B32, seg);
    FarWordIs(double, pos, seg);
    LowPart(pos);
    assert pos < B29 ==> hi == seg;
    DecodeEncode(FarPtr(double, pos % B29, hi));
    hide Decode, Encode, FarWord, Or;
  }

  lemma LowPart(pos: nat)
    ensures 8 * pos % B32 == 8 * (pos % B29)
    ensures pos < B29 <==> pos % B29 == pos
    ensures pos < B29 ==> 8 * pos / B32 == 0
  {
    var q, r := pos / B29, pos % B29;
    assert 8 * pos == B32 * q + 8 * r;
    Parts(q, B32, 8 * r);
  }

  lemma FarWordIs(double: bool, pos: nat, seg: nat)
    requires seg < B32
    ensures Or(8 * pos / B32 % B32, seg) < B32
    ensures FarWord(double, pos, seg) == Encode(FarPtr(double, pos % B29, Or(8 * pos / B32 % B32, seg)))
  {
    Pow2Of32();
    OrFits(8 * pos / B32 % B32, seg, 32);
    LowPart(pos);
    hide Or;
  }

  /** The first word past 4 GiB of segment 0 is taken for the start of segment 1. */
  lemma FarIsElsewhere(double: bool)
    ensures Decode(FarWord(double, B29, 0)) == FarPtr(double, 0, 1)
  {
    FarWordReads(double, B29, 0);
    assert Or(1, 0) == 1;
  }

  /** A far pointer to a landing tag reads as what the tag reads as. */
  lemma FarReads(m: Mem, s: nat, d: nat, t: nat, p: Ptr, off: int)
    requires p.Obj? && Denotes(m, p) && s < |m| && d < |m[s]| && t < |m[p.seg]| && t < B29 && p.seg < B32
    requires InRange(off) && Start(p) == t + off + 1
    requires m[p.seg][t] == Encode(TagPointer(p.shape, off)) && m[s][d] == FarWord(false, t, p.seg)
    ensures ReadSlot(m, s, d) == Landed(p, off == 0)
  {
    FarWordReads(false, t, p.seg);
    DecodeEncode(TagPointer(p.shape, off));
    TagReads(m, p, t, off, true);
    hide ReadAt, Decode, Encode, FarWord;
  }

  /** A double-far pointer to a pad reads as the object the pad names. */
  lemma DoubleReads(m: Mem, s: nat, d: nat, ps: nat, t: nat, p: Ptr)
    requires p.Obj? && Denotes(m, p) && s < |m| && d < |m[s]| && p.seg < B32 && Start(p) < B29
    requires ps < |m| && ps < B32 && t + 1 < |m[ps]| && t < B29
    requires m[s][d] == FarWord(true, t, ps) && m[ps][t] == FarWord(false, Start(p), p.seg)
    requires m[ps][t + 1] == Encode(TagPointer(p.shape, 0))
    ensures ReadSlot(m, s, d) == Landed(p, false)
  {
    FarWordReads(true, t, ps);
    FarWordReads(false, Start(p), p.seg);
    DecodeEncode(TagPointer(p.shape, 0));
    TagReads(m, p, -1, Start(p), false);
    hide ReadAt, Decode, Encode, FarWord;
  }

  // ---- write_ptr_tag ----------------------------------------------------------------------

  /** The value write_ptr_tag stores, computed as it computes it: offset, kind, then the sizes in the upper half. */
  method TagValue(shape: Shape, off: int) returns (ok: bool, val: word)
    requires shape.Encodable()
    ensures ok <==> InRange(off)
    ensures ok ==> val == Encode(TagPointer(shape, off))
  {
    if off < -B29 || off > B29 - 1 {
      return false, 0;
    }
    // two's complement in 32 bits, by hand
    var lo := if off < 0 then (1 + (B32 - 1 - -off * 4)) % B32 else off * 4;
    TwosComplement(off);
    hide Unsigned30;
    ok := true;
    match shape
    case Struct(dw, pw) => val := Join(lo + 0, dw + B16 * pw);
    case Prim(code, n) => val := Join(lo + 1, code + 8 * n);
    case PtrList(n) => val := Join(lo + 1, 6 + 8 * n);
    case Composite(n, dw, pw) => val := Join(lo + 1, 7 + 8 * (n * (dw + pw)));
  }

  lemma TwosComplement(off: int)
    requires InRange(off)
    ensures 4 * Unsigned30(off) == if off < 0 then (1 + (B32 - 1 - -off * 4)) % B32 else off * 4
    ensures 0 <= Unsigned30(off) < B30
  {
  }

  // ---- the session in memory --------------------------------------------------------------

  /** Sizes in bytes are passed as an int. */
  const INT_MAX := 0x7FFF_FFFF

  /** A session whose segments are separate objects over separate memory. */
  ghost predicate Session(c: Capn)
    reads c, c.segs
  {
    && c.Valid() && |c.segs| <= B32
    && forall i, j | 0 <= i < j < |c.segs| :: c.segs[i] != c.segs[j] && c.segs[i].data != c.segs[j].data
  }

  /** All positions fit the 29 bits of a far pointer. */
  ghost predicate FarAddressable(m: Mem) { forall i | 0 <= i < |m| :: |m[i]| < B29 }

  method Store(c: Capn, s: nat, d: nat, w: word)
    requires Session(c) && s < |c.segs| && d < c.segs[s].len
    modifies c.segs[s].data
    ensures Session(c) && c.Mem() == SetWord(old(c.Mem()), s, d, w)
  {
    ghost var m := c.Mem();
    c.segs[s].data[d] := w;
    assert c.segs[s].Words() == PutWord(m[s], d, w);
    assert forall i | 0 <= i < |m| && i != s :: c.segs[i].Words() == m[i];
  }

  /** Writes `ws` at the end of a segment that has room, and lets the segment grow over it. */
  method Append(c: Capn, s: nat, ws: seq<word>)
    requires Session(c) && s < |c.segs| && c.segs[s].len + |ws| <= c.segs[s].cap
    modifies c.segs[s], c.segs[s].data
    ensures c.segs[s].cap == old(c.segs[s].cap) && Session(c) && c.Mem() == Extend(old(c.Mem()), s, ws)
  {
    ghost var m := c.Mem();
    var seg := c.segs[s];
    forall i | 0 <= i < |ws| { seg.data[seg.len + i] := ws[i]; }
    seg.len := seg.len + |ws|;
    assert seg.Words() == m[s] + ws;
    assert forall i | 0 <= i < |m| && i != s :: c.segs[i].Words() == m[i];
  }

  /** A zeroed segment with room for `sz` words; how much more room there is is its own affair. */
  method NewSegment(sz: nat) returns (seg: Segment)
    ensures fresh(seg) && fresh(seg.data) && seg.Valid() && seg.Words() == [] && sz <= seg.cap
    ensures seg.data.Length == seg.cap && forall i | 0 <= i < seg.cap :: seg.data[i] == 0
  {
    var cap: nat :| sz <= cap;
    var data := new word[cap](_ => 0);
    seg := new Segment(data, 0, cap);
  }

  /** capn_append_segment, without the tree. */
  method AddSegment(c: Capn, seg: Segment)
    requires Session(c) && seg.Valid() && |c.segs| < B32
    requires forall i | 0 <= i < |c.segs| :: c.segs[i] != seg && c.segs[i].data != seg.data
    modifies c`segs
    ensures Session(c) && c.segs == old(c.segs) + [seg] && c.Mem() == old(c.Mem()) + [seg.Words()]
  {
    hide MemOf;
    c.segs := c.segs + [seg];
    MemOfSnoc(old(c.segs), seg);
  }

  /** The create callback, by its contract: it fails, or it adds a zeroed segment with room for `sz` words. */
  method Create(c: Capn, sz: nat) returns (ok: bool)
    requires Session(c) && 8 * sz <= INT_MAX
    modifies c`segs
    ensures Session(c) && old(c.segs) <= c.segs
    ensures ok ==> |c.segs| == |old(c.segs)| + 1 && fresh(c.segs[|old(c.segs)|]) && fresh(c.segs[|old(c.segs)|].data)
    ensures ok ==> sz <= c.segs[|old(c.segs)|].cap && c.Mem() == old(c.Mem()) + [[]]
    ensures !ok ==> c.segs == old(c.segs)
  {
    hide MemOf;
    ok := *;
    if !ok || |c.segs| == B32 {
      return false;
    }
    var seg := NewSegment(sz);
    AddSegment(c, seg);
  }

  lemma MemOfSnoc(segs: seq<Segment>, s: Segment)
    requires AllValid(segs) && s.Valid()
    ensures AllValid(segs + [s]) && MemOf(segs + [s]) == MemOf(segs) + [s.Words()]
  {
    assert (segs + [s])[..|segs|] == segs;
  }

  /** No segment has room for `sz` words. */
  ghost predicate Full(c: Capn, sz: nat)
    reads c, c.segs
  {
    forall i | 0 <= i < |c.segs| :: c.segs[i].len + sz > c.segs[i].cap
  }

  /** new_data, up to the reservation: the first segment with room, or a new one. */
  method FindRoom(c: Capn, sz: nat) returns (ok: bool, s: nat)
    requires Session(c) && 8 * sz <= INT_MAX
    modifies c`segs
    ensures Session(c) && old(c.segs) <= c.segs
    ensures ok ==> s < |c.segs| && c.segs[s].len + sz <= c.segs[s].cap
    ensures ok && s < |old(c.segs)| ==> c.segs == old(c.segs)
    ensures ok ==> forall i | 0 <= i < s :: c.segs[i].len + sz > c.segs[i].cap
    ensures !ok ==> c.segs == old(c.segs) && old(Full(c, sz))
    ensures c.Mem() == if |c.segs| == |old(c.segs)| then old(c.Mem()) else old(c.Mem()) + [[]]
    ensures forall i | |old(c.segs)| <= i < |c.segs| :: fresh(c.segs[i]) && fresh(c.segs[i].data)
  {
    for i := 0 to |c.segs|
      invariant forall j | 0 <= j < i :: c.segs[j].len + sz > c.segs[j].cap
    {
      if c.segs[i].len + sz <= c.segs[i].cap {
        return true, i;
      }
    }
    s := |c.segs|;
    ok := Create(c, sz);
  }

  // ---- write_ptr --------------------------------------------------------------------------

  datatype Status = Written | Failed | NeedToCopy

  /** Nothing that was allocated before is changed, except the one slot. */
  ghost predicate Kept(m: Mem, m': Mem, s: nat, d: nat) {
    |m| <= |m'| && forall i | 0 <= i < |m| :: KeptWords(m[i], m'[i], if i == s then d else |m[i]|)
  }

  ghost predicate KeptWords(w: seq<word>, w': seq<word>, except: nat) {
    |w| <= |w'| && forall j | 0 <= j < |w| && j != except :: w'[j] == w[j]
  }

  /** The slot reads as p, up to the mark that says whether there is a tag in front of the object. */
  ghost predicate ReadsAs(m: Mem, s: nat, d: nat, p: Ptr) {
    s < |m| &&
    if p.Obj? then ReadSlot(m, s, d) in {Landed(p, false), Landed(p, true)} else ReadSlot(m, s, d) == Got(p)
  }

  /** A near pointer. */
  method WriteNear(c: Capn, d: nat, p: Ptr) returns (r: Status)
    requires Session(c) && p.Obj? && Denotes(c.Mem(), p) && d < c.segs[p.seg].len && SlotApart(p, p.seg, d)
    modifies c.segs[p.seg].data
    ensures Session(c) && Kept(old(c.Mem()), c.Mem(), p.seg, d)
    ensures r == if InRange(Start(p) - d - 1) then Written else Failed
    ensures r == Written ==> ReadsAs(c.Mem(), p.seg, d, p)
    ensures r == Failed ==> c.Mem() == old(c.Mem())
  {
    hide ReadSlot, Encode, TagPointer, CompositeTag;
    var off := Start(p) - d - 1;
    var ok, tag := TagValue(p.shape, off);
    if !ok {
      return Failed;
    }
    DenotesAfterSet(c.Mem(), p.seg, d, tag, p);
    Store(c, p.seg, d, tag);
    NearReads(c.Mem(), d, p.(tagged := false), off);
    r := Written;
  }

  /** A far pointer to the tag that is already in front of the object. */
  method WriteFarTagged(c: Capn, s: nat, d: nat, p: Ptr)
    requires Session(c) && p.Obj? && p.tagged && Denotes(c.Mem(), p)
    requires s < |c.segs| && s != p.seg && d < c.segs[s].len
    modifies c.segs[s].data
    ensures Session(c) && Kept(old(c.Mem()), c.Mem(), s, d)
    ensures Start(p) <= B29 ==> ReadsAs(c.Mem(), s, d, p)
  {
    hide ReadSlot, Encode, TagPointer, TagShape, FarWord;
    var far := FarWord(false, Start(p) - 1, p.seg);
    DenotesAfterSet(c.Mem(), s, d, far, p);
    Store(c, s, d, far);
    if Start(p) <= B29 {
      FarReads(c.Mem(), s, d, Start(p) - 1, p.(tagged := false), 0);
    }
  }

  lemma KeptBySet(m: Mem, s: nat, d: nat, w: word)
    requires s < |m| && d < |m[s]|
    ensures Kept(m, SetWord(m, s, d, w), s, d)
  {
  }

  lemma KeptByExtend(m: Mem, q: nat, ws: seq<word>, s: nat, d: nat)
    requires q < |m|
    ensures Kept(m, Extend(m, q, ws), s, d)
  {
  }

  lemma {:induction false} KeptTrans(m: Mem, m1: Mem, m2: Mem, s: nat, d: nat)
    requires Kept(m, m1, s, d) && Kept(m1, m2, s, d) && s < |m| && d < |m[s]|
    ensures Kept(m, m2, s, d)
  {
    forall i | 0 <= i < |m| ensures KeptWords(m[i], m2[i], if i == s then d else |m[i]|) {
      assert KeptWords(m[i], m1[i], if i == s then d else |m[i]|);
      assert KeptWords(m1[i], m2[i], if i == s then d else |m1[i]|);
    }
  }

  /** Appending a tag and pointing at it reads as the object, where the position of the tag has 29 bits. */
  lemma AppendedReads(m: Mem, s: nat, d: nat, p: Ptr, off: int)
    requires p.Obj? && Denotes(m, p) && s < |m| && s != p.seg && d < |m[s]| && p.seg < B32
    requires InRange(off) && Start(p) == |m[p.seg]| + off + 1
    ensures var t := |m[p.seg]|;
      var m1 := Extend(m, p.seg, [Encode(TagPointer(p.shape, off))]);
      var m2 := SetWord(m1, s, d, FarWord(false, t, p.seg));
      Kept(m, m2, s, d) && (t < B29 ==> ReadsAs(m2, s, d, p))
  {
    hide ReadSlot, Encode, TagPointer, TagShape, Kept, Denotes, FarWord;
    ObjectStarts(m, p);
    var t, tag, far := |m[p.seg]|, Encode(TagPointer(p.shape, off)), FarWord(false, |m[p.seg]|, p.seg);
    var m1 := Extend(m, p.seg, [tag]);
    DenotesAfterExtend(m, p.seg, [tag], p);
    DenotesAfterSet(m1, s, d, far, p);
    if t < B29 {
      FarReads(SetWord(m1, s, d, far), s, d, t, p.(tagged := false), off);
    }
    KeptByExtend(m, p.seg, [tag], s, d);
    KeptBySet(m1, s, d, far);
    KeptTrans(m, m1, SetWord(m1, s, d, far), s, d);
  }

  /** A far pointer to a tag appended to the object's segment. */
  method WriteFarAppended(c: Capn, s: nat, d: nat, p: Ptr) returns (r: Status)
    requires Session(c) && p.Obj? && Denotes(c.Mem(), p)
    requires s < |c.segs| && s != p.seg && d < c.segs[s].len && c.segs[p.seg].len < c.segs[p.seg].cap
    modifies c.segs[s].data, c.segs[p.seg], c.segs[p.seg].data
    ensures Session(c) && Kept(old(c.Mem()), c.Mem(), s, d)
    ensures r == if InRange(Start(p) - old(c.segs[p.seg].len) - 1) then Written else Failed
    ensures r == Written && old(c.segs[p.seg].len) < B29 ==> ReadsAs(c.Mem(), s, d, p)
    ensures r == Failed ==> c.Mem() == old(c.Mem())
  {
    hide ReadsAs, Encode, TagPointer, Kept, Denotes, MemOf, FarWord;
    ObjectStarts(c.Mem(), p);
    KeptRefl(c.Mem(), s, d);
    var t := c.segs[p.seg].len;
    var off := Start(p) - t - 1;
    var ok, tag := TagValue(p.shape, off);
    if !ok {
      return Failed;
    }
    AppendedReads(c.Mem(), s, d, p, off);
    Append(c, p.seg, [tag]);
    Store(c, s, d, FarWord(false, t, p.seg));
    r := Written;
  }

  lemma ObjectStarts(m: Mem, p: Ptr)
    requires p.Obj? && Denotes(m, p)
    ensures p.seg < |m| && 0 <= Start(p) <= |m[p.seg]| && p.shape.Encodable()
  {
  }

  /** Appending a landing pad and pointing at it reads as the object, where the positions have 29 bits. */
  lemma PadReads(m: Mem, s: nat, d: nat, ps: nat, p: Ptr)
    requires p.Obj? && Denotes(m, p) && s < |m| && s != p.seg && d < |m[s]| && ps < |m| <= B32
    ensures var t := |m[ps]|;
      var m1 := Extend(m, ps, [FarWord(false, Start(p), p.seg), Encode(TagPointer(p.shape, 0))]);
      var m2 := SetWord(m1, s, d, FarWord(true, t, ps));
      Kept(m, m2, s, d) && (t < B29 && Start(p) < B29 ==> ReadsAs(m2, s, d, p))
  {
    hide ReadSlot, Encode, TagPointer, TagShape, Kept, Denotes, FarWord;
    ObjectStarts(m, p);
    var t, far, tag := |m[ps]|, FarWord(false, Start(p), p.seg), Encode(TagPointer(p.shape, 0));
    var slot := FarWord(true, t, ps);
    var m1 := Extend(m, ps, [far, tag]);
    var m2 := SetWord(m1, s, d, slot);
    DenotesAfterExtend(m, ps, [far, tag], p);
    DenotesAfterSet(m1, s, d, slot, p);
    assert m2[ps][t] == far && m2[ps][t + 1] == tag;
    if t < B29 && Start(p) < B29 {
      DoubleReads(m2, s, d, ps, t, p.(tagged := false));
    }
    KeptByExtend(m, ps, [far, tag], s, d);
    KeptBySet(m1, s, d, slot);
    KeptTrans(m, m1, m2, s, d);
  }

  lemma KeptRefl(m: Mem, s: nat, d: nat)
    ensures Kept(m, m, s, d)
  {
  }

  lemma KeptByAdd(m: Mem, s: nat, d: nat)
    ensures Kept(m, m + [[]], s, d)
  {
  }

  lemma DenotesAfterAdd(m: Mem, p: Ptr)
    requires Denotes(m, p)
    ensures Denotes(m + [[]], p)
  {
    hide Encode, TagPointer, TagShape;
  }

  /** Writes the landing pad into segment `ps`, which has room for it, and points the slot at it. */
  method WritePad(c: Capn, s: nat, d: nat, ps: nat, p: Ptr)
    requires Session(c) && p.Obj? && Denotes(c.Mem(), p)
    requires s < |c.segs| && s != p.seg && d < c.segs[s].len
    requires ps < |c.segs| && c.segs[ps].len + 2 <= c.segs[ps].cap
    modifies c.segs[s].data, c.segs[ps], c.segs[ps].data
    ensures Session(c) && c.segs[ps].cap == old(c.segs[ps].cap) && Kept(old(c.Mem()), c.Mem(), s, d)
    ensures |old(c.Mem())[ps]| < B29 && Start(p) < B29 ==> ReadsAs(c.Mem(), s, d, p)
  {
    hide ReadsAs, Encode, TagPointer, Kept, Denotes, MemOf, FarWord;
    ObjectStarts(c.Mem(), p);
    var t := c.segs[ps].len;
    PadReads(c.Mem(), s, d, ps, p);
    var _, tag := TagValue(p.shape, 0);
    Append(c, ps, [FarWord(false, Start(p), p.seg), tag]);
    Store(c, s, d, FarWord(true, t, ps));
  }

  /** A double-far pointer to a landing pad, in the slot's own segment when it has room. */
  method WriteDoubleFar(c: Capn, s: nat, d: nat, p: Ptr) returns (r: Status)
    requires Session(c) && p.Obj? && Denotes(c.Mem(), p)
    requires s < |c.segs| && s != p.seg && d < c.segs[s].len
    modifies c`segs, c.segs, set i | 0 <= i < |c.segs| :: c.segs[i].data
    ensures Session(c) && Kept(old(c.Mem()), c.Mem(), s, d)
    ensures r == Written && FarAddressable(old(c.Mem())) ==> ReadsAs(c.Mem(), s, d, p)
    ensures r != Written ==> r == Failed && c.Mem() == old(c.Mem()) && old(Full(c, 2))
  {
    hide ReadsAs, Encode, TagPointer, Kept, Denotes, MemOf;
    ghost var m := c.Mem();
    KeptRefl(m, s, d);
    KeptByAdd(m, s, d);
    DenotesAfterAdd(m, p);
    var ok, ps := true, s;
    if c.segs[s].len + 2 > c.segs[s].cap {
      ok, ps := FindRoom(c, 2);
    }
    if !ok {
      return Failed;
    }
    ghost var m1 := c.Mem();
    ObjectStarts(m1, p);
    WritePad(c, s, d, ps, p);
    KeptTrans(m, m1, c.Mem(), s, d);
    r := Written;
  }

  /** What write_ptr leaves in the slot when it returns 0. */
  ghost predicate Done(m: Mem, s: nat, d: nat, p: Ptr) {
    if p.Obj? && p.shape.EmptyStruct() then ReadsAs(m, s, d, Obj(s, d, Struct(0, 0), false)) else ReadsAs(m, s, d, p)
  }

  /** A word without a landing object: a capability, the null pointer or the empty struct. */
  function Immediate(p: Ptr): (w: word)
    requires match p case Null => true case Cap(i) => i < B32 case Obj(_, _, shape, _) => shape.EmptyStruct()
  {
    match p
    case Null => 0
    case Cap(i) => Encode(OtherPtr(0, i))
    case Obj(_, _, _, _) => Encode(StructPtr(-1, 0, 0))
  }

  lemma ImmediateReads(m: Mem, s: nat, d: nat, p: Ptr)
    requires match p case Null => true case Cap(i) => i < B32 case Obj(_, _, shape, _) => shape.EmptyStruct()
    requires s < |m| && d < |m[s]| && m[s][d] == Immediate(p)
    ensures Done(m, s, d, p)
  {
    match p
    case Null => assert Encode(StructPtr(0, 0, 0)) == 0; DecodeEncode(StructPtr(0, 0, 0));
    case Cap(i) => DecodeEncode(OtherPtr(0, i));
    case Obj(_, _, _, _) => DecodeEncode(StructPtr(-1, 0, 0));
  }

  /**
   write_ptr. `foreign` says that the object belongs to another session, to none, or is a list member.
   Whenever the pointer is written, by whichever placement, every other word is as before, and the slot reads
   back as what was written, as long as far pointers can hold the positions; a failure changes nothing at all.
   */
  method WritePtr(c: Capn, s: nat, d: nat, p: Ptr, foreign: bool) returns (r: Status)
    requires Session(c) && s < |c.segs| && d < c.segs[s].len && (p.Cap? ==> p.index < B32)
    requires p.Obj? && !p.shape.EmptyStruct() && !foreign ==> Denotes(c.Mem(), p) && SlotApart(p, s, d)
    modifies c`segs, c.segs, set i | 0 <= i < |c.segs| :: c.segs[i].data
    ensures Session(c) && Kept(old(c.Mem()), c.Mem(), s, d)
    ensures r == NeedToCopy <==> p.Obj? && !p.shape.EmptyStruct() && foreign
    ensures r == Failed ==> p.Obj? && p.seg < |old(c.segs)|
    ensures r == Written && (p.Obj? && !p.shape.EmptyStruct() && p.seg != s ==> FarAddressable(old(c.Mem()))) ==>
      Done(c.Mem(), s, d, p)
    ensures r != Written ==> c.Mem() == old(c.Mem())
    ensures p.Obj? && !p.shape.EmptyStruct() && !foreign && p.seg == s ==>
      (r == Written <==> InRange(Start(p) - d - 1))
    ensures r == Failed && p.seg != s ==>
      && !p.tagged
      && if old(c.segs[p.seg].len < c.segs[p.seg].cap) then !InRange(Start(p) - old(c.segs[p.seg].len) - 1)
         else old(Full(c, 2))
  {
    hide ReadsAs, Encode, TagPointer, Kept, Denotes, MemOf, Immediate;
    KeptRefl(c.Mem(), s, d);
    if !p.Obj? || p.shape.EmptyStruct() {
      var w := Immediate(p);
      KeptBySet(c.Mem(), s, d, w);
      Store(c, s, d, w);
      ImmediateReads(c.Mem(), s, d, p);
      return Written;
    }
    if foreign {
      return NeedToCopy;
    }
    ObjectStarts(c.Mem(), p);
    if p.seg == s {
      r := WriteNear(c, d, p);
    } else if p.tagged {
      WriteFarTagged(c, s, d, p);
      r := Written;
    } else if c.segs[p.seg].len + 1 <= c.segs[p.seg].cap {
      r := WriteFarAppended(c, s, d, p);
    } else {
      r := WriteDoubleFar(c, s, d, p);
    }
  }

  /** Every other pointer of the session, unless the slot held its tag, means what it meant. */
  lemma OthersKept(m: Mem, m': Mem, s: nat, d: nat, q: Ptr)
    requires Kept(m, m', s, d) && Denotes(m, q) && q.Obj? && SlotApart(q, s, d)
    requires !(q.tagged && q.seg == s && d == Start(q) - 1)
    ensures Denotes(m', q)
  {
    hide Encode, TagPointer, TagShape;
    assert KeptWords(m[q.seg], m'[q.seg], if q.seg == s then d else |m[q.seg]|);
  }

  // ---- new_object -------------------------------------------------------------------------

  /** Everything allocated before is still there, word for word. */
  ghost predicate Grown(m: Mem, m': Mem) {
    |m| <= |m'| && forall i | 0 <= i < |m| :: m[i] <= m'[i]
  }

  /** The object is a good one and starts behind everything that was allocated before. */
  ghost predicate NewIn(m: Mem, m': Mem, p: Ptr) {
    && Grown(m, m') && p.Obj? && p.seg < |m'|
    && (p.seg < |m| ==> |m[p.seg]| <= Start(p))
    && (if p.shape.EmptyStruct() then p.data <= |m'[p.seg]| else Denotes(m', p))
  }

  /** Lets a segment grow over `n` more words of its memory. */
  method Grow(c: Capn, s: nat, n: nat)
    requires Session(c) && s < |c.segs| && c.segs[s].len + n <= c.segs[s].cap
    modifies c.segs[s]
    ensures c.segs[s].cap == old(c.segs[s].cap) && Session(c)
    ensures |c.Mem()[s]| == |old(c.Mem())[s]| + n && c.Mem() == Extend(old(c.Mem()), s, c.Mem()[s][|old(c.Mem())[s]|..])
  {
    ghost var m := c.Mem();
    var seg := c.segs[s];
    seg.len := seg.len + n;
    assert seg.Words() == m[s] + seg.Words()[|m[s]|..];
    assert forall i | 0 <= i < |m| && i != s :: c.segs[i].Words() == m[i];
  }

  /** The words put in front of the elements of an object that starts at word d. */
  function Fronted(m: Mem, q: nat, d: nat, shape: Shape, tagged: bool): Mem
    requires q < |m| && d + (if tagged then 1 else 0) + shape.Extra() <= |m[q]| && shape.Encodable()
  {
    var m1 := if tagged then SetWord(m, q, d, Encode(TagPointer(shape, 0))) else m;
    var e := if tagged then d + 1 else d;
    if shape.Composite? then SetWord(m1, q, e, CompositeTag(shape.n, shape.dw, shape.pw)) else m1
  }

  lemma NewDenotes(m: Mem, ws: seq<word>, q: nat, shape: Shape, tagged: bool)
    requires q < |m| && shape.Encodable() && |ws| == (if tagged then 1 else 0) + shape.Extra() + shape.Size()
    ensures var d := |m[q]|; var m1 := Extend(m, q, ws);
      var p := Obj(q, d + (if tagged then 1 else 0) + shape.Extra(), shape, tagged);
      shape.Extra() + shape.Size() > 0 ==> NewIn(m, Fronted(m1, q, d, shape, tagged), p)
  {
    hide Encode, TagPointer, CompositeTag, Decode, TagShape;
    if shape.Composite? {
      CompositeTagReads(shape.n, shape.dw, shape.pw);
    }
  }

  /**
   The words new_object is asked for. The byte count of a bit list passes through the field datasz, which
   has 19 bits, so that of a long one wraps around.
   */
  function Allocated(shape: Shape): nat {
    if shape.Prim? && shape.code == 1 then ((shape.n + 7) / 8 % 0x8_0000 + 7) / 8 else shape.Extra() + shape.Size()
  }

  /** What is asked for is what the object takes, except for the long bit lists, which get less. */
  lemma AllocatedFits(shape: Shape)
    ensures Readable(shape) ==> Allocated(shape) == shape.Extra() + shape.Size()
    ensures !Readable(shape) ==> Allocated(shape) < shape.Extra() + shape.Size()
  {
    if shape.Prim? && shape.code == 1 {
      BitsAllocated(shape.n);
    }
  }

  /** Every 2^22 bits are lost. */
  lemma BitsLost(n: nat)
    ensures Allocated(Prim(1, n + 0x40_0000)) == Allocated(Prim(1, n))
  {
    var b := (n + 7) / 8;
    assert (n + 0x40_0000 + 7) / 8 == b + 0x8_0000;
    assert (b + 0x8_0000) % 0x8_0000 == b % 0x8_0000;
  }

  lemma BitsAllocated(n: nat)
    ensures Prim(1, n).Size() == ((n + 7) / 8 + 7) / 8
    ensures Readable(Prim(1, n)) ==> Allocated(Prim(1, n)) == Prim(1, n).Size()
    ensures !Readable(Prim(1, n)) ==> Allocated(Prim(1, n)) < Prim(1, n).Size()
  {
    CeilTwice(n);
    var b := (n + 7) / 8;
    assert Prim(1, n).Size() == (b + 7) / 8;
    assert Allocated(Prim(1, n)) == (b % 0x8_0000 + 7) / 8;
    Wrapped(b);
    hide Allocated, Shape.Size;
  }

  lemma Wrapped(b: nat)
    ensures b < 0x8_0000 ==> b % 0x8_0000 == b
    ensures b >= 0x8_0000 ==> (b % 0x8_0000 + 7) / 8 < (b + 7) / 8
  {
    var q, r := b / 0x8_0000, b % 0x8_0000;
    assert b == 0x8_0000 * q + r;
    EighthsLess(r + 7, b + 7);
  }

  lemma EighthsLess(a: nat, b: nat)
    ensures a + 8 <= b ==> a / 8 < b / 8
  {
  }

  lemma CeilTwice(n: nat)
    ensures ((n + 7) / 8 + 7) / 8 == (n + 63) / 64
  {
    var b := (n + 7) / 8;
    assert 8 * b <= n + 7 < 8 * b + 8;
  }

  /** 2^22 bits are allocated no word at all. */
  lemma LongBitList()
    ensures Allocated(Prim(1, 0x40_0000)) == 0 && Prim(1, 0x40_0000).Size() == 0x1_0000
  {
  }

  /** Where the object gets fewer words than it takes, it reaches past the end of its segment. */
  ghost predicate ShortIn(m: Mem, m': Mem, p: Ptr) {
    Grown(m, m') && p.Obj? && p.seg < |m'| && !Readable(p.shape) && p.data + Allocated(p.shape) == |m'[p.seg]|
  }

  lemma ShortIsOutside(m: Mem, m': Mem, p: Ptr)
    requires ShortIn(m, m', p)
    ensures !Inside(m', p)
  {
    AllocatedFits(p.shape);
    hide Allocated, Shape.Size, Readable;
  }

  lemma NewShort(m: Mem, ws: seq<word>, q: nat, shape: Shape, tagged: bool)
    requires q < |m| && shape.Encodable() && !Readable(shape) && |ws| == (if tagged then 1 else 0) + Allocated(shape)
    ensures var d := |m[q]|; var m1 := Extend(m, q, ws);
      var p := Obj(q, d + (if tagged then 1 else 0), shape, tagged);
      ShortIn(m, Fronted(m1, q, d, shape, tagged), p)
  {
    hide Encode, TagPointer, CompositeTag, Decode, Allocated;
  }

  /** The object made: as good as its shape, or short. */
  ghost predicate Made(m: Mem, m': Mem, p: Ptr) {
    p.Obj? && if Readable(p.shape) then NewIn(m, m', p) else ShortIn(m, m', p)
  }

  lemma GrownThen(m: Mem, m1: Mem, m2: Mem, p: Ptr)
    requires m1 == m || m1 == m + [[]]
    requires Made(m1, m2, p)
    ensures Made(m, m2, p)
  {
    hide Denotes;
  }

  /** The tags of a new object: the landing tag, when it moved to another segment, and the composite list's. */
  method PutFront(c: Capn, q: nat, d: nat, shape: Shape, tagged: bool) returns (data: nat)
    requires Session(c) && q < |c.segs| && shape.Encodable()
    requires d + (if tagged then 1 else 0) + shape.Extra() <= c.segs[q].len
    modifies c.segs[q].data
    ensures Session(c) && c.Mem() == Fronted(old(c.Mem()), q, d, shape, tagged)
    ensures data == d + (if tagged then 1 else 0) + shape.Extra()
  {
    hide Encode, TagPointer, CompositeTag, MemOf, PutWord, Segment.Words, Shape.Size;
    data := d;
    if tagged {
      var _, tag := TagValue(shape, 0);
      Store(c, q, data, tag);
      data := data + 1;
    }
    if shape.Composite? {
      Store(c, q, data, CompositeTag(shape.n, shape.dw, shape.pw));
      data := data + 1;
    }
  }

  /**
   new_object and the header of capn_new_struct_list: an object of the given shape in segment s, or,
   with a landing tag in front, in the first segment with room. The byte counts have to fit an int. A bit list
   of 2^19 bytes or more comes out short; it fails only when no segment has room.
   */
  method NewObject(c: Capn, s: nat, shape: Shape) returns (p: Ptr)
    requires Session(c) && s < |c.segs| && shape.Encodable() && 8 * Allocated(shape) <= INT_MAX
    requires c.segs[s].len + Allocated(shape) > c.segs[s].cap ==> 8 * (Allocated(shape) + 1) <= INT_MAX
    modifies c`segs, c.segs
    modifies set i | 0 <= i < |c.segs| :: c.segs[i].data
    ensures Session(c)
    ensures p == Null ==> c.Mem() == old(c.Mem()) && old(Full(c, Allocated(shape) + 1))
    ensures p == Null ==> old(c.segs[s].len + Allocated(shape) > c.segs[s].cap)
    ensures p != Null ==> Made(old(c.Mem()), c.Mem(), p) && p.Obj? && p.shape == shape && (p.tagged <==> p.seg != s)
  {
    hide Encode, TagPointer, CompositeTag, MemOf, Made, Fronted, Denotes, Allocated;
    var total := Allocated(shape);
    AllocatedFits(shape);
    ghost var m := c.Mem();
    if total == 0 {
      p := Obj(s, c.segs[s].len, shape, false);
      EmptyIsMade(m, p);
      return;
    }
    var q, moved := s, c.segs[s].len + total > c.segs[s].cap;
    if moved {
      var ok;
      ok, q := FindRoom(c, total + 1);
      if !ok {
        return Null;
      }
      assert q != s;
    }
    p := Place(c, q, shape, moved);
    GrownThen(m, if |m| == |c.segs| then m else m + [[]], c.Mem(), p);
  }

  lemma EmptyIsMade(m: Mem, p: Ptr)
    requires p.Obj? && p.shape.Encodable() && p.seg < |m| && p.data == |m[p.seg]| && !p.tagged
    requires Allocated(p.shape) == 0
    ensures Made(m, m, p)
  {
    AllocatedFits(p.shape);
  }

  /** Takes the words at the end of segment q. */
  method Place(c: Capn, q: nat, shape: Shape, tagged: bool) returns (p: Ptr)
    requires Session(c) && q < |c.segs| && shape.Encodable() && Allocated(shape) > 0
    requires c.segs[q].len + (if tagged then 1 else 0) + Allocated(shape) <= c.segs[q].cap
    modifies c.segs[q], c.segs[q].data
    ensures Session(c) && Made(old(c.Mem()), c.Mem(), p) && p.Obj? && p.shape == shape && p.seg == q
      && p.tagged == tagged
  {
    hide Encode, TagPointer, CompositeTag, MemOf, NewIn, ShortIn, Fronted, Denotes, Allocated, Readable;
    ghost var m := c.Mem();
    var d := c.segs[q].len;
    AllocatedFits(shape);
    ExtraAllocated(shape);
    Grow(c, q, (if tagged then 1 else 0) + Allocated(shape));
    if Readable(shape) {
      NewDenotes(m, c.Mem()[q][d..], q, shape, tagged);
    } else {
      NewShort(m, c.Mem()[q][d..], q, shape, tagged);
    }
    var data := PutFront(c, q, d, shape, tagged);
    p := Obj(q, data, shape, tagged);
  }

  lemma ExtraAllocated(shape: Shape)
    ensures shape.Extra() <= Allocated(shape) && (!Readable(shape) ==> shape.Extra() == 0)
  {
  }

  // ---- capn_root ---------------------------------------------------------------------------

  /** At most the first segment has changed, by getting its first word. */
  ghost predicate RootGrown(m: Mem, m': Mem) {
    && |m| == |m'| && (forall i | 0 < i < |m| :: m'[i] == m[i])
    && (|m| > 0 ==> m'[0] == m[0] || (m[0] == [] && |m'[0]| == 1))
  }

  /** capn_root on a message with segments: the first segment gets its first word, if it has room for it. */
  method Root(c: Capn) returns (ok: bool)
    requires Session(c) && |c.segs| > 0
    modifies c.segs[0]
    ensures Session(c) && c.segs[0].cap == old(c.segs[0].cap) && (ok <==> c.segs[0].cap > 0)
    ensures ok ==> c.segs[0].len > 0
    ensures c.segs[0].len == if ok && old(c.segs[0].len) == 0 then 1 else old(c.segs[0].len)
    ensures RootGrown(old(c.Mem()), c.Mem())
  {
    ok := c.segs[0].cap > 0;
    if ok && c.segs[0].len == 0 {
      c.segs[0].len := 1;
    }
    assert forall i | 0 < i < |c.segs| :: c.segs[i].Words() == old(c.segs[i].Words());
  }
}
