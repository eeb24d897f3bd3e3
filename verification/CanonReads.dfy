/**
 What a reader gets to see: the objects that can be reached from an object, element by element and pointer by
 pointer, and the bits of their data. A message and another one that means its truncation show the same.
 */
module CanonReads {
  import opened Powers
  import opened Wire
  import opened Arena
  import opened Pointers
  import opened CanonValue
  import opened CanonSource

  // ---- bits ---------------------------------------------------------------------------------

  /** Word c of element i. */
  ghost function WordIn(m: Mem, p: Ptr, i: nat, c: nat): word
    requires Object(m, p) && i < p.shape.Elems() && c < p.shape.Stride()
  {
    WordInside(m, p, i, c);
    m[p.seg][p.data + i * p.shape.Stride() + c]
  }

  lemma WordInside(m: Mem, p: Ptr, i: nat, c: nat)
    requires Object(m, p) && i < p.shape.Elems() && c < p.shape.Stride()
    ensures p.data + i * p.shape.Stride() + c < |m[p.seg]|
    ensures m[p.seg][p.data + i * p.shape.Stride() + c] == Col(m, p, i, c)
  {
    assert Cell(m, p, i, c) == p.data + i * p.shape.Stride() + c;
  }

  /** Bit b of a data list, counted from its start. */
  ghost function BitIn(m: Mem, p: Ptr, b: nat): nat
    requires Object(m, p) && p.shape.Prim? && b < 64 * p.shape.DataWords()
  {
    m[p.seg][p.data + b / 64] / Pow2(b % 64) % 2
  }

  function BitOf(ws: seq<word>, b: nat): nat
    requires b < 64 * |ws|
  {
    ws[b / 64] / Pow2(b % 64) % 2
  }

  /** The low k bits are the first k bits, and nothing else. */
  lemma LowBit(w: word, k: nat, j: nat)
    ensures Low(w, k) / Pow2(j) % 2 == if j < k then w / Pow2(j) % 2 else 0
  {
    assert Low(w, k) == w % Pow2(k);
    hide Low;
    if j < k {
      Pow2Sum(j, k - j);
      Pow2Double(k - j - 1);
      hide Pow2;
      LowerBit(w, Pow2(j), Pow2(k - j - 1));
    } else {
      Pow2Grows(k, j);
      hide Pow2;
      NoBit(w % Pow2(k), Pow2(j));
    }
  }

  lemma Pow2Double(n: nat)
    ensures Pow2(n + 1) == 2 * Pow2(n)
  {
  }

  lemma NoBit(r: nat, a: nat)
    requires r < a
    ensures r / a == 0
  {
    Parts(0, a, r);
  }

  /** What lies above 2ac does not matter to the bit at a. */
  lemma LowerBit(w: nat, a: nat, c: nat)
    requires a > 0 && c > 0
    ensures a * (2 * c) > 0 && w % (a * (2 * c)) / a % 2 == w / a % 2
  {
    var all := a * (2 * c);
    Positive(a, 2 * c);
    var q, r := w / all, w % all;
    Remainder(w, all);
    assert w == q * all + r;
    var s, t := r / a, r % a;
    Remainder(r, a);
    assert r == s * a + t;
    Regrouped(w, q, a, c, s, t);
    Parts(2 * (q * c) + s, a, t);
    EvenMore(q * c, s);
  }

  lemma Positive(a: nat, b: nat)
    requires a > 0 && b > 0
    ensures a * b > 0
  {
  }

  lemma Regrouped(w: nat, q: nat, a: nat, c: nat, s: nat, t: nat)
    requires w == q * (a * (2 * c)) + (s * a + t)
    ensures w == t + a * (2 * (q * c) + s)
  {
    assert q * (a * (2 * c)) == a * (2 * (q * c));
    assert a * (2 * (q * c) + s) == a * (2 * (q * c)) + a * s;
  }

  lemma EvenMore(x: nat, s: nat)
    ensures (2 * x + s) % 2 == s % 2
  {
  }

  lemma MaskBit(shape: Shape, ws: seq<word>, b: nat)
    requires shape.Prim? && |ws| == shape.DataWords() && b < 64 * |ws|
    ensures BitOf(Mask(shape, ws), b) == if b < ElemBits(shape.code) * shape.n then BitOf(ws, b) else 0
  {
    var bits := ElemBits(shape.code) * shape.n;
    var k, i := bits % 64, b / 64;
    assert |ws| == (bits + 63) / 64 && Bits(shape) == bits;
    hide ElemBits, Bits, Shape.DataWords;
    LastWord(bits, b, |ws|);
    if k != 0 && i == |ws| - 1 {
      assert Mask(shape, ws)[i] == Low(ws[i], k);
      hide Mask;
      LowBit(ws[i], k, b % 64);
    } else {
      assert Mask(shape, ws)[i] == ws[i];
    }
    hide Pow2, Low, Mask;
  }

  lemma LastWord(bits: nat, b: nat, n: nat)
    requires n == (bits + 63) / 64 && b < 64 * n
    ensures b / 64 < n
    ensures bits % 64 != 0 && b / 64 == n - 1 ==> (b < bits <==> b % 64 < bits % 64)
    ensures bits % 64 == 0 || b / 64 < n - 1 ==> b < bits
  {
  }

  /** The data of a list is its elements' bits, each where it was, and zeros up to the end of the last word. */
  lemma DataBits(m: Mem, p: Ptr, b: nat)
    requires Object(m, p) && p.shape.Prim? && b < 64 * p.shape.DataWords()
    ensures BitOf(DataOf(m, p, p.shape.DataWords(), 0), b)
      == if b < ElemBits(p.shape.code) * p.shape.n then BitIn(m, p, b) else 0
  {
    var ws := seq(p.shape.DataWords(), c requires 0 <= c < p.shape.DataWords() => Col(m, p, 0, c));
    MaskBit(p.shape, ws, b);
    WordInside(m, p, 0, b / 64);
    hide Mask, Col, ElemBits;
  }

  // ---- paths --------------------------------------------------------------------------------

  /** Pointer j of element i. */
  datatype Hop = Hop(i: nat, j: nat)

  /** The word that the hop goes by. */
  ghost function HopSlot(m: Mem, p: Ptr, h: Hop): (d: nat)
    requires Object(m, p) && h.i < p.shape.Elems() && h.j < p.shape.PtrWords()
    ensures p.seg < |m| && d < |m[p.seg]|
  {
    WordInside(m, p, h.i, p.shape.DataWords() + h.j);
    p.data + h.i * p.shape.Stride() + p.shape.DataWords() + h.j
  }

  /** What a hop leads to; beyond the end of the object there is nothing. */
  ghost function Hopped(m: Mem, p: Ptr, h: Hop): (r: Read)
    requires Sound(m, p)
    ensures r.Got? ==> Sound(m, r.p)
  {
    if !p.Obj? || h.i >= p.shape.Elems() || h.j >= p.shape.PtrWords() then Got(Null)
    else if m[p.seg][HopSlot(m, p, h)] == 0 then Got(Null)
    else
      ReadsSound(m, p.seg, HopSlot(m, p, h));
      ReadSlot(m, p.seg, HopSlot(m, p, h))
  }

  ghost function Go(m: Mem, p: Ptr, path: seq<Hop>): (r: Read)
    requires Sound(m, p)
    ensures r.Got? ==> Sound(m, r.p)
  {
    if path == [] then Got(p)
    else
      var r := Go(m, p, path[..|path| - 1]);
      if r.Got? then Hopped(m, r.p, path[|path| - 1]) else Broken
  }

  /** The same in a value. */
  function SubHop(v: Value, h: Hop): Value { if InGrid(v, h.i, h.j) then Kid(v, h.i, h.j) else Nil }

  function Sub(v: Value, path: seq<Hop>): Value {
    if path == [] then v else SubHop(Sub(v, path[..|path| - 1]), path[|path| - 1])
  }

  /** A message that means a value leads to its parts. */
  lemma HopMeans(m: Mem, p: Ptr, h: Hop, depth: nat) returns (d: nat)
    requires Sound(m, p) && Decoded(m, p, depth).Means?
    ensures Hopped(m, p, h).Got? && Decoded(m, Hopped(m, p, h).p, d) == Means(SubHop(Decoded(m, p, depth).v, h))
  {
    hide Decoded, Object, Inside, Hopped, SubHop;
    d := 0;
    if !p.Obj? || h.i >= p.shape.Elems() || h.j >= p.shape.PtrWords() {
      HopOut(m, p, h, depth);
    } else {
      DecodedIs(m, p, depth);
      d := HopIn(m, p, h, depth);
    }
  }

  lemma HopIn(m: Mem, p: Ptr, h: Hop, depth: nat) returns (d: nat)
    requires Object(m, p) && h.i < p.shape.Elems() && h.j < p.shape.PtrWords()
    requires DecodedKid(m, p, h.i, h.j, depth).Means?
    ensures Hopped(m, p, h).Got?
    ensures Decoded(m, Hopped(m, p, h).p, d) == Means(SubHop(Whole(m, p, depth), h))
  {
    assert p.seg < |m| && HopSlot(m, p, h) < |m[p.seg]|;
    hide Whole, Decoded, Object, Inside, Target, HopSlot, Col, ReadSlot;
    hide Shape.Elems, Shape.PtrWords, Shape.Stride, Shape.DataWords;
    d := if depth > 0 && m[p.seg][HopSlot(m, p, h)] != 0 then depth - 1 else 0;
    WholeGrid(m, p, depth, h);
    WholeKid(m, p, depth, h.i, h.j);
    HopTarget(m, p, h);
    NullMeans(m);
  }

  lemma HopTarget(m: Mem, p: Ptr, h: Hop)
    requires Object(m, p) && h.i < p.shape.Elems() && h.j < p.shape.PtrWords()
    ensures m[p.seg][HopSlot(m, p, h)] == Col(m, p, h.i, p.shape.DataWords() + h.j)
    ensures Target(m, p, h.i, h.j) == ReadSlot(m, p.seg, HopSlot(m, p, h))
  {
    hide ReadSlot;
    assert HopSlot(m, p, h) == Cell(m, p, h.i, p.shape.DataWords() + h.j);
  }

  lemma HopOut(m: Mem, p: Ptr, h: Hop, depth: nat)
    requires Sound(m, p) && Decoded(m, p, depth).Means?
    requires !p.Obj? || h.i >= p.shape.Elems() || h.j >= p.shape.PtrWords()
    ensures Hopped(m, p, h) == Got(Null) && SubHop(Decoded(m, p, depth).v, h) == Nil
      && Decoded(m, Null, 0) == Means(Nil)
  {
    if p.Obj? {
      DecodedIs(m, p, depth);
      WholeGrid(m, p, depth, h);
      hide Decoded, Whole, Object, Inside, Shape.Elems, Shape.PtrWords;
    } else {
      hide Object;
    }
    NullMeans(m);
  }

  lemma NullMeans(m: Mem)
    ensures Decoded(m, Null, 0) == Means(Nil)
  {
  }

  lemma DecodedIs(m: Mem, p: Ptr, depth: nat)
    requires Object(m, p) && Decoded(m, p, depth).Means?
    ensures Decoded(m, p, depth).v == Whole(m, p, depth)
    ensures forall i, j | 0 <= i < p.shape.Elems() && 0 <= j < p.shape.PtrWords() ::
      DecodedKid(m, p, i, j, depth).Means?
  {
    hide Whole, DecodedKid;
  }

  lemma WholeGrid(m: Mem, p: Ptr, depth: nat, h: Hop)
    requires Object(m, p)
    ensures InGrid(Whole(m, p, depth), h.i, h.j) <==> h.i < p.shape.Elems() && h.j < p.shape.PtrWords()
  {
    hide DecodedKid;
  }

  lemma {:induction false} GoMeans(m: Mem, p: Ptr, path: seq<Hop>, depth: nat) returns (d: nat)
    requires Sound(m, p) && Decoded(m, p, depth).Means?
    ensures Go(m, p, path).Got? && Decoded(m, Go(m, p, path).p, d) == Means(Sub(Decoded(m, p, depth).v, path))
  {
    d := depth;
    if path != [] {
      hide Decoded, Sound, Hopped, SubHop;
      var front := path[..|path| - 1];
      d := GoMeans(m, p, front, depth);
      d := HopMeans(m, Go(m, p, front).p, path[|path| - 1], d);
    }
  }

  /** Truncation goes with the parts: what is cut off is null. */
  lemma SubHopTrim(v: Value, h: Hop)
    requires Good(v)
    ensures Good(SubHop(v, h)) && SubHop(Trim(v), h) == Trim(SubHop(v, h))
  {
    NilGood();
    if InGrid(v, h.i, h.j) {
      assert Good(Kid(v, h.i, h.j));
      if h.j >= Cut(v).PtrWords() {
        var nil := NilKids(v.rows, v.shape.PtrWords());
        CutPtrs(v);
        assert nil[h.j];
      }
    }
    hide Good;
  }

  lemma CutPtrs(v: Value)
    requires v.Tree? && Fits(v)
    ensures var nil := NilKids(v.rows, v.shape.PtrWords());
      forall j | Cut(v).PtrWords() <= j < v.shape.PtrWords() :: nil[j]
  {
  }

  lemma {:induction false} SubTrim(v: Value, path: seq<Hop>)
    requires Good(v)
    ensures Good(Sub(v, path)) && Sub(Trim(v), path) == Trim(Sub(v, path))
  {
    if path != [] {
      hide Good, Trim, SubHop;
      SubTrim(v, path[..|path| - 1]);
      SubHopTrim(Sub(v, path[..|path| - 1]), path[|path| - 1]);
    }
  }

  // ---- objects that look the same -----------------------------------------------------------

  /** Structs and struct lists may differ in size; everything else has the same elements of the same kind. */
  predicate AlikeShapes(a: Shape, b: Shape) {
    match a
    case Struct(_, _) => b.Struct?
    case Composite(n, _, _) => b.Composite? && b.n == n
    case _ => b == a
  }

  /** A reader sees the same null pointer, capability, or data: missing data words of structs read as zero. */
  ghost predicate Alike(m: Mem, p: Ptr, m': Mem, p': Ptr)
    requires Sound(m, p) && Sound(m', p')
  {
    match p
    case Null => p' == Null
    case Cap(_) => p' == p
    case Obj(_, _, shape, _) =>
      && p'.Obj? && AlikeShapes(shape, p'.shape)
      && if shape.Prim? then SameBits(m, p, m', p') else SameWords(m, p, m', p')
  }

  ghost predicate SameBits(m: Mem, p: Ptr, m': Mem, p': Ptr)
    requires Object(m, p) && Object(m', p') && p.shape.Prim? && p'.shape == p.shape
  {
    forall b | 0 <= b < ElemBits(p.shape.code) * p.shape.n :: BitIn(m', p', b) == BitIn(m, p, b)
  }

  ghost predicate SameWords(m: Mem, p: Ptr, m': Mem, p': Ptr)
    requires Object(m, p) && Object(m', p') && AlikeShapes(p.shape, p'.shape)
  {
    forall i, c | 0 <= i < p.shape.Elems() && 0 <= c < p.shape.DataWords() ::
      WordIn(m, p, i, c) == if c < p'.shape.DataWords() then WordIn(m', p', i, c) else 0
  }

  lemma MeansObject(m: Mem, p: Ptr, depth: nat)
    requires Sound(m, p) && Decoded(m, p, depth).Means?
    ensures var v := Decoded(m, p, depth).v;
      match p
      case Null => v == Nil
      case Cap(i) => v == CapRef(i)
      case Obj(_, _, shape, _) =>
        && v.Tree? && v.shape == shape && |v.rows| == shape.Elems()
        && forall i | 0 <= i < |v.rows| :: v.rows[i].data == DataOf(m, p, shape.DataWords(), i)
  {
    if p.Obj? {
      DecodedIs(m, p, depth);
      hide Decoded, DecodedKid, DataOf, Object;
    } else {
      hide Object;
    }
  }

  lemma DataWord(m: Mem, p: Ptr, i: nat, c: nat)
    requires Object(m, p) && !p.shape.Prim? && i < p.shape.Elems() && c < p.shape.DataWords()
    ensures DataOf(m, p, p.shape.DataWords(), i)[c] == WordIn(m, p, i, c)
  {
    WordInside(m, p, i, c);
    hide Col, Object;
  }

  lemma TrimObject(v: Value)
    requires v.Tree? && Good(v)
    ensures var t := Trim(v);
      && t.Tree? && AlikeShapes(v.shape, t.shape) && |t.rows| == |v.rows| && t.shape.DataWords() <= v.shape.DataWords()
      && forall i | 0 <= i < |v.rows| :: |v.rows[i].data| == v.shape.DataWords()
          && t.rows[i].data == v.rows[i].data[..t.shape.DataWords()]
          && forall c | t.shape.DataWords() <= c < v.shape.DataWords() :: v.rows[i].data[c] == 0
  {
    CutObject(v);
    assert Trim(v).shape == Cut(v);
    hide Cut, Good;
  }

  lemma CutObject(v: Value)
    requires v.Tree? && Fits(v)
    ensures AlikeShapes(v.shape, Cut(v)) && Cut(v).DataWords() <= v.shape.DataWords()
    ensures forall i, c | 0 <= i < |v.rows| && Cut(v).DataWords() <= c < v.shape.DataWords() :: v.rows[i].data[c] == 0
  {
    var zero := ZeroData(v.rows, v.shape.DataWords());
    CutSmaller(v.shape, zero, NilKids(v.rows, v.shape.PtrWords()));
    var dw := Cut(v).DataWords();
    assert forall c | dw <= c < v.shape.DataWords() :: zero[c];
    forall i, c | 0 <= i < |v.rows| && dw <= c < v.shape.DataWords() ensures v.rows[i].data[c] == 0 {
      assert zero[c];
    }
  }

  lemma AlikeMeans(m: Mem, p: Ptr, d: nat, m': Mem, p': Ptr, d': nat, v: Value)
    requires Sound(m, p) && Sound(m', p') && Good(v)
    requires Decoded(m, p, d) == Means(v) && Decoded(m', p', d') == Means(Trim(v))
    ensures Alike(m, p, m', p')
  {
    MeansObject(m, p, d);
    MeansObject(m', p', d');
    hide Decoded, Object, DataOf, Good;
    if p.Obj? {
      TrimObject(v);
      hide Trim;
      if p.shape.Prim? {
        AlikeBits(m, p, m', p');
      } else {
        AlikeWords(m, p, m', p', v, Trim(v));
      }
    }
  }

  lemma AlikeBits(m: Mem, p: Ptr, m': Mem, p': Ptr)
    requires Object(m, p) && Object(m', p') && p.shape.Prim? && p'.shape == p.shape
    requires var dw := p.shape.DataWords(); dw > 0 ==> DataOf(m', p', dw, 0) == DataOf(m, p, dw, 0)
    ensures SameBits(m, p, m', p')
  {
    forall b | 0 <= b < ElemBits(p.shape.code) * p.shape.n ensures BitIn(m', p', b) == BitIn(m, p, b) {
      DataBits(m, p, b);
      DataBits(m', p', b);
    }
  }

  lemma AlikeWords(m: Mem, p: Ptr, m': Mem, p': Ptr, v: Value, t: Value)
    requires Object(m, p) && Object(m', p') && AlikeShapes(p.shape, p'.shape) && !p.shape.Prim?
    requires v.Tree? && t.Tree? && |v.rows| == |t.rows| == p.shape.Elems()
      && p'.shape.DataWords() <= p.shape.DataWords()
    requires forall i | 0 <= i < |v.rows| ::
      && v.rows[i].data == DataOf(m, p, p.shape.DataWords(), i)
      && t.rows[i].data == DataOf(m', p', p'.shape.DataWords(), i) == v.rows[i].data[..p'.shape.DataWords()]
      && forall c | p'.shape.DataWords() <= c < p.shape.DataWords() :: v.rows[i].data[c] == 0
    ensures SameWords(m, p, m', p')
  {
    hide Object, DataOf;
    forall i, c | 0 <= i < p.shape.Elems() && 0 <= c < p.shape.DataWords()
      ensures WordIn(m, p, i, c) == if c < p'.shape.DataWords() then WordIn(m', p', i, c) else 0
    {
      DataWord(m, p, i, c);
      if c < p'.shape.DataWords() {
        DataWord(m', p', i, c);
      }
    }
  }

  /** Messages of which one means the truncation of the other show the same along every path. */
  lemma TruncationReads(m: Mem, p: Ptr, depth: nat, m': Mem, p': Ptr, depth': nat, path: seq<Hop>)
    requires Sound(m, p) && Sound(m', p') && Decoded(m, p, depth).Means? && Good(Decoded(m, p, depth).v)
    requires Decoded(m', p', depth') == Means(Trim(Decoded(m, p, depth).v))
    ensures Go(m, p, path).Got? && Go(m', p', path).Got?
    ensures Alike(m, Go(m, p, path).p, m', Go(m', p', path).p)
  {
    var d := GoMeans(m, p, path, depth);
    var d' := GoMeans(m', p', path, depth');
    SubTrim(Decoded(m, p, depth).v, path);
    hide Decoded, Sound, Good, Trim, Alike, Sub, Go;
    AlikeMeans(m, Go(m, p, path).p, d, m', Go(m', p', path).p, d', Sub(Decoded(m, p, depth).v, path));
  }
}
