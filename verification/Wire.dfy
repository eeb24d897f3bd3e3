/**
 Pointer words ("Structs", "Lists", "Inter-Segment Pointers" and "Capabilities (Interfaces)" in the
 Cap'n Proto encoding specification). A segment is a sequence of 64-bit little-endian words.
 */
module Wire {
  import opened Powers

  const B16 := 0x1_0000
  const B29 := 0x2000_0000
  const B30 := 0x4000_0000
  const B32 := 0x1_0000_0000
  const B64 := 0x1_0000_0000_0000_0000

  type word = w: int | 0 <= w < 0x1_0000_0000_0000_0000

  /** Element size codes of a list; code 6 is a pointer list and code 7 a composite list. */
  type ElemCode = c: int | 0 <= c < 6

  /** What a pointer says about its object. `Prim` covers bit lists (code 1) and data lists. */
  datatype Shape =
    | Struct(dw: nat, pw: nat)
    | Prim(code: ElemCode, n: nat)
    | PtrList(n: nat)
    | Composite(n: nat, dw: nat, pw: nat)
  {
    /** The object is `Elems` elements, each of `DataWords` data words and `PtrWords` pointers. */
    function Elems(): nat { if Composite? then n else 1 }

    function DataWords(): nat {
      match this
      case Struct(d, _) => d
      case Prim(c, k) => (ElemBits(c) * k + 63) / 64
      case PtrList(_) => 0
      case Composite(_, d, _) => d
    }

    function PtrWords(): nat {
      match this
      case Struct(_, p) => p
      case Prim(_, _) => 0
      case PtrList(k) => k
      case Composite(_, _, p) => p
    }

    function Stride(): nat { DataWords() + PtrWords() }

    /** Words of the object, without a composite list's tag. */
    function Size(): nat { Elems() * Stride() }

    /** Words in front of the first element. */
    function Extra(): nat { if Composite? then 1 else 0 }

    /** The fields fit the pointer word. */
    ghost predicate Encodable() {
      match this
      case Struct(d, p) => d < B16 && p < B16
      case Prim(_, k) => k < B29
      case PtrList(k) => k < B29
      case Composite(k, d, p) => k < B30 && d < B16 && p < B16 && k * (d + p) < B29
    }

    /** An object of no words that is not a list: it is written with offset -1. */
    predicate EmptyStruct() { Struct? && dw == 0 && pw == 0 }
  }

  function ElemBits(c: ElemCode): nat {
    if c == 0 then 0 else if c == 1 then 1 else if c == 2 then 8 else if c == 3 then 16 else if c == 4 then 32 else 64
  }

  /** What a list of n elements takes: nothing for voids, else so many elements to a word, the last word rounded up. */
  lemma ListWords(n: nat)
    ensures Prim(0, n).Size() == 0
    ensures Prim(1, n).Size() == (n + 63) / 64
    ensures Prim(2, n).Size() == (n + 7) / 8
    ensures Prim(3, n).Size() == (n + 3) / 4
    ensures Prim(4, n).Size() == (n + 1) / 2
    ensures Prim(5, n).Size() == PtrList(n).Size() == n
  {
  }

  /** A decoded pointer word. */
  datatype Pointer =
    | StructPtr(off: int, dw: nat, pw: nat)
    | ListPtr(off: int, code: nat, n: nat)
    | FarPtr(double: bool, pos: nat, seg: nat)
    | OtherPtr(b: nat, c: nat)
  {
    ghost predicate Valid() {
      match this
      case StructPtr(o, d, p) => -B29 <= o < B29 && d < B16 && p < B16
      case ListPtr(o, k, m) => -B29 <= o < B29 && k < 8 && m < B29
      case FarPtr(_, p, s) => p < B29 && s < B32
      case OtherPtr(k, m) => k < B30 && m < B32
    }
  }

  function Unsigned30(o: int): nat
    requires -B29 <= o < B29
  {
    if o < 0 then o + B30 else o
  }

  function Signed30(u: nat): int
    requires u < B30
    ensures -B29 <= Signed30(u) < B29
  {
    if u < B29 then u else u - B30
  }

  function Encode(p: Pointer): (w: word)
    requires p.Valid()
  {
    match p
    case StructPtr(o, d, q) => Join(4 * Unsigned30(o), d + B16 * q)
    case ListPtr(o, k, m) => Join(1 + 4 * Unsigned30(o), k + 8 * m)
    case FarPtr(dbl, pos, s) => Join((if dbl then 6 else 2) + 8 * pos, s)
    case OtherPtr(b, c) => Join(3 + 4 * b, c)
  }

  function Join(lo: nat, hi: nat): (w: word)
    requires lo < B32 && hi < B32
  {
    lo + B32 * hi
  }

  function Decode(w: word): (p: Pointer)
    ensures p.Valid()
  {
    var lo, hi := Lo(w), Hi(w);
    if lo % 4 == 0 then StructPtr(Signed30(lo / 4), hi % B16, hi / B16)
    else if lo % 4 == 1 then ListPtr(Signed30(lo / 4), hi % 8, hi / 8)
    else if lo % 4 == 2 then FarPtr(lo / 4 % 2 == 1, lo / 8, hi)
    else OtherPtr(lo / 4, hi)
  }

  function Lo(w: word): (n: nat)
    ensures n < B32
  {
    w % B32
  }

  function Hi(w: word): (n: nat)
    ensures n < B32
  {
    w / B32
  }

  lemma JoinSplits(lo: nat, hi: nat)
    requires lo < B32 && hi < B32
    ensures Lo(Join(lo, hi)) == lo && Hi(Join(lo, hi)) == hi
  {
  }

  /** Every pointer that fits its fields survives the trip through its word. */
  lemma DecodeEncode(p: Pointer)
    requires p.Valid()
    ensures Decode(Encode(p)) == p
  {
    hide Encode, Decode;
    match p
    case StructPtr(o, d, q) => StructDecodes(o, d, q);
    case ListPtr(o, k, m) => ListDecodes(o, k, m);
    case FarPtr(dbl, pos, s) => FarDecodes(dbl, pos, s);
    case OtherPtr(b, c) => OtherDecodes(b, c);
  }

  lemma StructDecodes(o: int, d: nat, q: nat)
    requires -B29 <= o < B29 && d < B16 && q < B16
    ensures Decode(Encode(StructPtr(o, d, q))) == StructPtr(o, d, q)
  {
    hide Lo, Hi;
    var u := Unsigned30(o);
    JoinSplits(4 * u, d + B16 * q);
    Parts(u, 4, 0);
    Parts(q, B16, d);
    assert Signed30(u) == o;
  }

  lemma ListDecodes(o: int, k: nat, m: nat)
    requires -B29 <= o < B29 && k < 8 && m < B29
    ensures Decode(Encode(ListPtr(o, k, m))) == ListPtr(o, k, m)
  {
    hide Lo, Hi;
    var u := Unsigned30(o);
    JoinSplits(1 + 4 * u, k + 8 * m);
    Parts(u, 4, 1);
    Parts(m, 8, k);
    assert Signed30(u) == o;
  }

  lemma OtherDecodes(b: nat, c: nat)
    requires b < B30 && c < B32
    ensures Decode(Encode(OtherPtr(b, c))) == OtherPtr(b, c)
  {
    hide Lo, Hi;
    JoinSplits(3 + 4 * b, c);
    Parts(b, 4, 3);
  }

  lemma FarDecodes(dbl: bool, pos: nat, s: nat)
    requires pos < B29 && s < B32
    ensures Decode(Encode(FarPtr(dbl, pos, s))) == FarPtr(dbl, pos, s)
  {
    hide Lo, Hi;
    var kind := if dbl then 6 else 2;
    var lo := kind + 8 * pos;
    JoinSplits(lo, s);
    Parts(pos, 8, kind);
    Parts(2 * pos + if dbl then 1 else 0, 4, 2);
  }

  /** And every word is the encoding of what it decodes to: no two words read alike. */
  lemma EncodeDecode(w: word)
    ensures Encode(Decode(w)) == w
  {
    var lo, hi := Lo(w), Hi(w);
    assert w == Join(lo, hi);
    if lo % 4 == 2 {
      FarParts(lo);
    }
    hide Lo, Hi;
  }

  lemma FarParts(lo: nat)
    requires lo % 4 == 2
    ensures lo == (if lo / 4 % 2 == 1 then 6 else 2) + 8 * (lo / 8)
  {
    var q := lo / 4;
    assert lo == 4 * q + 2;
    assert lo / 8 == q / 2;
  }
}
