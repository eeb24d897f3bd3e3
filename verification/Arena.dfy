/**
 Decoding pointers out of a message: read_ptr and what it rests on in capn.c. A message is a list of
 segments, a segment a sequence of words. `ReadSlot` is the meaning of a pointer slot; the method
 `ReadPtr` adds the nesting and traversal limits.
 */
module Arena {
  import opened Wire

  /** The segments' words, up to their lengths. */
  type Mem = seq<seq<word>>

  /** A decoded capn_ptr; `data` is the word at which the first element starts. */
  datatype Ptr =
    | Null
    | Cap(index: nat)
    | Obj(seg: nat, data: nat, shape: Shape, tagged: bool)

  datatype Read = Broken | Got(p: Ptr)

  /** The key of the visited set: segment, address, type and whether the list is composite. */
  datatype Key = Key(seg: nat, data: nat, kind: nat, composite: bool)

  function KeyOf(p: Ptr): Key
    requires p.Obj?
  {
    var kind := match p.shape
      case Struct(_, _) => 1
      case Prim(code, _) => if code == 1 then 4 else 2
      case PtrList(_) => 3
      case Composite(_, _, _) => 2;
    Key(p.seg, p.data, kind, p.shape.Composite?)
  }

  /** The object lies in its segment, a composite list's tag included. */
  ghost predicate Inside(m: Mem, p: Ptr) {
    p.Obj? ==>
      && p.seg < |m| && p.shape.Extra() <= p.data
      && p.data + p.shape.Size() <= |m[p.seg]|
      && p.shape.Encodable()
  }

  /** apply_offset: the word `off + 1` words behind the pointer, if it lies in the segment or at its end. */
  function Land(m: Mem, s: nat, d: int, off: int): (next: int)
    requires s < |m|
    ensures next == -1 || 0 <= next <= |m[s]|
  {
    var next := d + off + 1;
    if next < 0 || next > |m[s]| then -1 else next
  }

  function CompositeTag(n: nat, dw: nat, pw: nat): word
    requires n < B30 && dw < B16 && pw < B16
  {
    Join(4 * n, dw + B16 * pw)
  }

  /** The shape that a composite list's tag declares. */
  function TagShape(w: word): Shape {
    Composite(Lo(w) / 4, Hi(w) % B16, Hi(w) / B16)
  }

  const MAX_BIT_BYTES := 0x7_FFFF

  function ListShape(code: nat, n: nat): Shape
    requires code < 7
  {
    if code == 6 then PtrList(n) else Prim(code, n)
  }

  /** What read_ptr makes of the pointer word it ends up with; `d` is where that word counts from. */
  function ReadAt(m: Mem, s: nat, d: int, p: Pointer, far: bool): (r: Read)
    requires s < |m| && p.Valid()
    ensures r.Got? ==> Inside(m, r.p)
  {
    match p
    case OtherPtr(b, c) => if b != 0 then Broken else Got(Cap(c))
    case FarPtr(_, _, _) => Broken
    case StructPtr(off, dw, pw) =>
      var next := Land(m, s, d, off);
      if next < 0 || next + dw + pw > |m[s]| then Broken
      else if p == StructPtr(0, 0, 0) then Got(Null)
      else Got(Obj(s, next, Struct(dw, pw), far && off == 0))
    case ListPtr(off, code, n) =>
      var next := Land(m, s, d, off);
      if next < 0 then Broken
      else if code < 7 then
        var shape := ListShape(code, n);
        if (code == 1 && (n + 7) / 8 > MAX_BIT_BYTES) || next + shape.Size() > |m[s]| then Broken
        else Got(Obj(s, next, shape, far && off == 0))
      else if next + 1 + n > |m[s]| then Broken
      else
        var shape := TagShape(m[s][next]);
        if shape.Size() != n then Broken else Got(Obj(s, next + 1, shape, far && off == 0))
  }

  /** lookup_far and lookup_double, then the rest of read_ptr, without its limits. */
  function ReadSlot(m: Mem, s: nat, d: nat): (r: Read)
    requires s < |m|
    ensures r.Got? ==> Inside(m, r.p)
  {
    if d >= |m[s]| then Broken
    else
      var p := Decode(m[s][d]);
      if !p.FarPtr? then ReadAt(m, s, d, p, false)
      else if p.seg >= |m| then Broken
      else if !p.double then
        if p.pos >= |m[p.seg]| then Broken
        else ReadAt(m, p.seg, p.pos, Decode(m[p.seg][p.pos]), true)
      else if p.pos + 2 > |m[p.seg]| then Broken
      else ReadDouble(m, Decode(m[p.seg][p.pos]), Decode(m[p.seg][p.pos + 1]))
  }

  /** The landing pad of a double-far pointer: a far pointer to the object, and a tag with no offset. */
  function ReadDouble(m: Mem, far: Pointer, tag: Pointer): (r: Read)
    requires far.Valid() && tag.Valid()
    ensures r.Got? ==> Inside(m, r.p)
  {
    if !far.FarPtr? || far.double || far.seg >= |m| then Broken
    else match tag
      case StructPtr(0, dw, pw) => ReadAt(m, far.seg, -1, StructPtr(far.pos, dw, pw), false)
      case ListPtr(0, code, n) => ReadAt(m, far.seg, -1, ListPtr(far.pos, code, n), false)
      case _ => Broken
  }

  // ---- limits -----------------------------------------------------------------------------

  function Bytes(shape: Shape): nat {
    match shape
    case Prim(code, n) => (ElemBits(code) * n + 7) / 8
    case _ => 8 * shape.Size()
  }

  /** charge_traversal: the object's bytes, or a word per element of a list without any. */
  function Cost(p: Ptr): nat {
    if !p.Obj? then 0
    else if Bytes(p.shape) > 0 then Bytes(p.shape)
    else match p.shape
      case Struct(_, _) => 0
      case Prim(_, n) => 8 * n
      case PtrList(n) => 8 * n
      case Composite(n, _, _) => 8 * n
  }

  // ---- the message in memory --------------------------------------------------------------

  /** struct capn_segment, with lengths in words. */
  class Segment {
    const data: array<word>
    var len: nat
    var cap: nat

    constructor (data: array<word>, len: nat, cap: nat)
      ensures this.data == data && this.len == len && this.cap == cap
    {
      this.data, this.len, this.cap := data, len, cap;
    }

    ghost predicate Valid()
      reads this
    {
      len <= cap <= data.Length
    }

    ghost function Words(): (w: seq<word>)
      reads this, data
      requires Valid()
      ensures |w| == len
    {
      data[..len]
    }
  }

  ghost predicate AllValid(segs: seq<Segment>)
    reads segs
  {
    forall i | 0 <= i < |segs| :: segs[i].Valid()
  }

  ghost function MemOf(segs: seq<Segment>): (m: Mem)
    reads segs, set s | s in segs :: s.data
    requires AllValid(segs)
    ensures |m| == |segs| && forall i | 0 <= i < |m| :: m[i] == segs[i].Words()
  {
    if segs == [] then [] else MemOf(segs[..|segs| - 1]) + [segs[|segs| - 1].Words()]
  }

  /**
   struct capn. Segment ids are positions in the list; the limits are the effective ones, with the
   defaults already put in. Nothing here looks a segment up by anything but its id, so the tree that
   does so is left to module SegmentTree.
   */
  class Capn {
    var segs: seq<Segment>
    const traversalLimit: nat
    const nestingLimit: nat
    var traversalUsed: nat
    var decodeErr: bool

    constructor (segs: seq<Segment>, traversalLimit: nat, nestingLimit: nat)
      ensures this.segs == segs && traversalUsed == 0 && !decodeErr
      ensures this.traversalLimit == traversalLimit && this.nestingLimit == nestingLimit
    {
      this.segs, this.traversalLimit, this.nestingLimit := segs, traversalLimit, nestingLimit;
      traversalUsed, decodeErr := 0, false;
    }

    ghost predicate Valid()
      reads `segs, segs
    {
      AllValid(segs)
    }

    ghost function Mem(): (m: Mem)
      reads `segs, segs, set s | s in segs :: s.data
      requires Valid()
      ensures |m| == |segs| && forall i | 0 <= i < |m| :: m[i] == segs[i].Words()
    {
      MemOf(segs)
    }

    method Fetch(s: nat, d: nat) returns (w: word)
      requires Valid() && s < |segs| && d < segs[s].len
      ensures w == Mem()[s][d]
    {
      w := segs[s].data[d];
    }

    /** The part of read_ptr behind the far pointers. */
    method ReadObject(s: nat, d: int, p: Pointer, far: bool) returns (r: Read)
      requires Valid() && s < |segs| && p.Valid()
      ensures r == ReadAt(Mem(), s, d, p, far)
    {
      var len := segs[s].len;
      match p
      case OtherPtr(b, index) =>
        if b != 0 {
          return Broken;
        }
        return Got(Cap(index));
      case FarPtr(_, _, _) =>
        return Broken;
      case StructPtr(off, dw, pw) =>
        var next := d + off + 1;
        if next < 0 || next > len || dw + pw > len - next {
          return Broken;
        }
        return Got(if p == StructPtr(0, 0, 0) then Null else Obj(s, next, Struct(dw, pw), far && off == 0));
      case ListPtr(off, code, n) =>
        var next := d + off + 1;
        if next < 0 || next > len {
          return Broken;
        }
        if code < 7 {
          var shape := ListShape(code, n);
          if (code == 1 && (n + 7) / 8 > MAX_BIT_BYTES) || shape.Size() > len - next {
            return Broken;
          }
          return Got(Obj(s, next, shape, far && off == 0));
        }
        if next == len || n > len - next - 1 {
          return Broken;
        }
        var tag := Fetch(s, next);
        var shape := TagShape(tag);
        if shape.Size() != n {
          return Broken;
        }
        return Got(Obj(s, next + 1, shape, far && off == 0));
    }

    /** lookup_far, lookup_double and what they land on. */
    method ReadFar(p: Pointer) returns (r: Read)
      requires Valid() && p.FarPtr?
      ensures r == if p.seg >= |segs| then Broken
        else if !p.double then
          if p.pos >= |Mem()[p.seg]| then Broken else ReadAt(Mem(), p.seg, p.pos, Decode(Mem()[p.seg][p.pos]), true)
        else if p.pos + 2 > |Mem()[p.seg]| then Broken
        else ReadDouble(Mem(), Decode(Mem()[p.seg][p.pos]), Decode(Mem()[p.seg][p.pos + 1]))
    {
      hide ReadAt, Decode;
      if p.seg >= |segs| || p.pos >= segs[p.seg].len {
        return Broken;
      }
      var w := Fetch(p.seg, p.pos);
      if !p.double {
        r := ReadObject(p.seg, p.pos, Decode(w), true);
        return;
      }
      if p.pos + 1 >= segs[p.seg].len {
        return Broken;
      }
      var t := Fetch(p.seg, p.pos + 1);
      var far, tag := Decode(w), Decode(t);
      if !far.FarPtr? || far.double || far.seg >= |segs| {
        return Broken;
      }
      match tag
      case StructPtr(0, dw, pw) => r := ReadObject(far.seg, -1, StructPtr(far.pos, dw, pw), false);
      case ListPtr(0, code, n) => r := ReadObject(far.seg, -1, ListPtr(far.pos, code, n), false);
      case _ => r := Broken;
    }

    /** read_ptr without its limits. */
    method ReadUnlimited(s: nat, d: nat) returns (r: Read)
      requires Valid() && s < |segs|
      ensures r == ReadSlot(Mem(), s, d)
    {
      hide ReadAt, Decode, ReadDouble;
      if d >= segs[s].len {
        return Broken;
      }
      var w := Fetch(s, d);
      var p := Decode(w);
      if p.FarPtr? {
        r := ReadFar(p);
      } else {
        r := ReadObject(s, d, p, false);
      }
    }

    /** charge_traversal lets an object pass that costs nothing. */
    predicate Affords(used: nat, p: Ptr) { Cost(p) == 0 || used + Cost(p) <= traversalLimit }

    /**
     read_ptr: the pointer in slot d of segment s, unless the nesting or the traversal limit is used
     up. A refusal sets decodeErr and gives the null pointer; a null pointer on the wire does not.
     */
    method ReadPtr(s: nat, d: nat, rem: nat) returns (p: Ptr)
      requires Valid() && s < |segs|
      modifies this`traversalUsed, this`decodeErr
      ensures var r := ReadSlot(Mem(), s, d);
        if rem == 0 || r.Broken? || !Affords(old(traversalUsed), r.p)
        then p == Null && decodeErr && traversalUsed == old(traversalUsed)
        else p == r.p && traversalUsed == old(traversalUsed) + Cost(p) && decodeErr == old(decodeErr)
      ensures Inside(Mem(), p)
    {
      hide ReadSlot, Cost;
      var r := Broken;
      if rem > 0 {
        r := ReadUnlimited(s, d);
      }
      if r.Broken? || !Affords(traversalUsed, r.p) {
        decodeErr := true;
        return Null;
      }
      traversalUsed := traversalUsed + Cost(r.p);
      return r.p;
    }
  }
}
