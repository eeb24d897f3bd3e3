/** capn_canonicalize, and what its output is: unique, faithful, and stable up to one exception. */
module Canonicalize {
  import opened Wire
  import opened Arena
  import opened Pointers
  import opened VisitedSet
  import opened CanonValue
  import opened CanonSource
  import opened CanonReads
  import opened CanonAgain
  import opened CanonMeasure
  import opened CanonEmit

  // ---- from the root ------------------------------------------------------------------------

  /** What the root pointer reads as; a message without segments has a null root. */
  ghost function RootRead(m: Mem): (r: Read)
    ensures r.Got? ==> Sound(m, r.p)
  {
    if |m| == 0 then Got(Null)
    else if |m[0]| == 0 then Broken
    else if m[0][0] == 0 then Got(Null)
    else
      ReadsSound(m, 0, 0);
      if ReadSlot(m, 0, 0) == Got(Null) then Broken else ReadSlot(m, 0, 0)
  }

  /** The traversal from the root, under a nesting limit. */
  ghost function RootWalk(m: Mem, nest: nat): Walked
    requires nest > 0
  {
    match RootRead(m)
    case Broken => Stuck
    case Got(p) =>
      var w := Walk(m, p, nest - 1, {});
      if w.Seen? then Seen(w.v, Cost(p) + w.cost) else Stuck
  }

  ghost function RootMeaning(m: Mem, nest: nat): Meaning
    requires nest > 0
  {
    match RootRead(m)
    case Broken => Unknown
    case Got(p) => Decoded(m, p, nest - 1)
  }

  /** What the first pass succeeds on: the traversal gets through, and its charges and the size are within the limit. */
  ghost predicate Surveyed(w: Walked, used: nat, limit: nat)
    ensures Surveyed(w, used, limit) ==> w.Seen?
  {
    w.Seen? && Pays(used, w.cost, limit) && (Bulk(w.v) ==> 8 + 8 * Size(w.v) <= limit)
  }

  /** The message can be canonicalized: traversed, paid for, and its canonical form fits the limit and an int. */
  ghost predicate Canonicalizable(w: Walked, used: nat, limit: nat)
    ensures Canonicalizable(w, used, limit) ==> w.Seen?
  {
    Surveyed(w, used, limit) && 8 + 8 * Size(w.v) <= INT_MAX
  }

  // ---- the operation ------------------------------------------------------------------------

  /** The root pointer of the source, read as read_ptr does; failing is having one that cannot be read. */
  method ReadRoot(c: Capn) returns (ok: bool, p: Ptr)
    requires c.Valid() && |c.segs| > 0 && c.segs[0].len > 0 && c.nestingLimit > 0
    modifies c`traversalUsed, c`decodeErr
    ensures var r := RootRead(c.Mem()); ok <==> r.Got? && Pays(old(c.traversalUsed), Cost(r.p), c.traversalLimit)
    ensures ok ==> RootRead(c.Mem()) == Got(p) && c.traversalUsed == old(c.traversalUsed) + Cost(p)
  {
    hide ReadSlot, Bytes, MemOf, Sound;
    var w := c.Fetch(0, 0);
    if w == 0 {
      return true, Null;
    }
    p := c.ReadPtr(0, 0, c.nestingLimit);
    ok := p != Null;
  }

  /** Reads and measures: the first pass. */
  method FirstPass(c: Capn) returns (ok: bool, first: Ptr, need: nat)
    requires c.Valid() && |c.segs| > 0 && c.segs[0].len > 0 && c.nestingLimit > 0
    modifies c`traversalUsed, c`decodeErr
    ensures ok <==> Surveyed(RootWalk(c.Mem(), c.nestingLimit), old(c.traversalUsed), c.traversalLimit)
    ensures ok ==> RootRead(c.Mem()) == Got(first) && need == 8 + 8 * Size(Val(RootWalk(c.Mem(), c.nestingLimit)))
  {
    hide RootRead, Walk, Cost, Size, Bulk, Pays, MemOf, Sound, VSet.Valid, PathOf, Capn.Valid;
    ghost var m, used := c.Mem(), c.traversalUsed;
    need := 8;
    ok, first := ReadRoot(c);
    RootPays(m, c.nestingLimit, used, c.traversalLimit);
    if !ok {
      return;
    }
    if first == Null {
      return;
    }
    var vs := NewPath();
    ok, need := Measure(c, first, c.nestingLimit - 1, vs, need);
  }

  /** vset_init */
  method NewPath() returns (vs: VSet<Key>)
    ensures fresh(vs) && fresh(vs.tab) && vs.Valid() && PathOf(vs) == {}
  {
    var hash: Key -> nat := *;
    vs := new VSet<Key>(hash);
    hide VSet.Valid, VSet.Map;
  }

  /** The conditions on the whole message, in terms of those behind the root. */
  lemma RootPays(m: Mem, nest: nat, used: nat, limit: nat)
    requires nest > 0
    ensures var w, r := RootWalk(m, nest), RootRead(m);
      && (w.Seen? && Pays(used, w.cost, limit) ==> r.Got? && Pays(used, Cost(r.p), limit))
      && (r.Got? && Pays(used, Cost(r.p), limit) ==>
        var u := Walk(m, r.p, nest - 1, {});
        && (u.Seen? <==> w.Seen?) && (u.Seen? ==> w == Seen(u.v, Cost(r.p) + u.cost))
        && (u.Seen? ==> (Pays(used, w.cost, limit) <==> Pays(used + Cost(r.p), u.cost, limit)))
        && (u.Seen? && Pays(used, w.cost, limit) ==> Pays(used, u.cost, limit))
        && (r.p == Null ==> u == Seen(Nil, 0) && Cost(r.p) == 0 && Size(Nil) == 0 && !Bulk(Nil)))
  {
    assert RootRead(m) == Got(Null) ==> Walk(m, Null, nest - 1, {}) == Seen(Nil, 0) && Cost(Null) == 0;
    hide RootRead, Walk, Cost, Sound;
    if RootRead(m).Got? && Walk(m, RootRead(m).p, nest - 1, {}).Seen? {
      PaysSum(used, Cost(RootRead(m).p), Walk(m, RootRead(m).p, nest - 1, {}).cost, limit);
    }
  }

  /** The create callback for the destination: nothing, or a zeroed segment of whatever capacity. */
  method NewDestination(dst: Capn) returns (ok: bool)
    requires |dst.segs| == 0
    modifies dst`segs
    ensures ok ==> |dst.segs| == 1 && fresh(dst.segs[0]) && fresh(dst.segs[0].data) && dst.segs[0].Valid()
    ensures ok ==> dst.segs[0].len == 0 && forall x | 0 <= x < dst.segs[0].cap :: dst.segs[0].data[x] == 0
    ensures !ok ==> dst.segs == []
  {
    ok := *;
    if ok {
      var cap: nat :| true;
      var data := new word[cap](_ => 0);
      var s := new Segment(data, 0, cap);
      dst.segs := [s];
    }
  }

  /** Emits the tree of the root behind the root's slot. */
  method SecondPass(src: Capn, ds: Segment, first: Ptr) returns (ok: bool)
    requires Apart(src, ds) && src.nestingLimit > 0 && RootRead(src.Mem()) == Got(first)
    requires ds.Words() == [0]
    modifies src`traversalUsed, src`decodeErr, ds`len, ds.data
    ensures Apart(src, ds) && src.Mem() == old(src.Mem())
    ensures var w := RootWalk(src.Mem(), src.nestingLimit);
      Canonicalizable(w, old(src.traversalUsed), src.traversalLimit) && 8 + 8 * Size(w.v) <= 8 * ds.cap ==>
        ok && Good(w.v) && Output(ds.Words(), w.v)
    ensures ds.cap <= MAX_WORDS ==> (ok <==> Ready(Walk(src.Mem(), first, src.nestingLimit - 1, {}),
      old(src.traversalUsed), src.traversalLimit, 1, ds.cap))
  {
    hide RootRead, Walk, Cost, MemOf, Sound, VSet.Valid, PathOf, Capn.Valid, Ready, Emitted, Pays, Apart, Output;
    hide Enough;
    ghost var m, used, was := src.Mem(), src.traversalUsed, ds.Words();
    RootPays(m, src.nestingLimit, used, src.traversalLimit);
    RootIsReady(m, first, src.nestingLimit, used, src.traversalLimit, ds.cap);
    var vs := NewPath();
    ok := Emit(src, first, src.nestingLimit - 1, vs, ds, 0);
    if ok && ds.cap <= MAX_WORDS {
      EnoughIsReady(Walk(m, first, src.nestingLimit - 1, {}), used, src.traversalUsed, src.traversalLimit, 1, ds.len,
        ds.cap);
    }
    EmittedOutput(was, ds.Words(), Val(RootWalk(m, src.nestingLimit)));
  }

  lemma RootIsReady(m: Mem, first: Ptr, nest: nat, used: nat, limit: nat, cap: nat)
    requires nest > 0 && RootRead(m) == Got(first)
    ensures var w, u := RootWalk(m, nest), Walk(m, first, nest - 1, {});
      Canonicalizable(w, used, limit) && 8 + 8 * Size(w.v) <= 8 * cap ==>
        Ready(u, used, limit, 1, cap) && w.v == u.v
  {
    RootPays(m, nest, used, limit);
    hide RootRead, Walk, Cost, Sound, Pays, Size, Bulk;
  }

  lemma EmittedOutput(was: seq<word>, w: seq<word>, v: Value)
    requires was == [0]
    ensures Emitted(was, w, 0, v) ==> Good(v) && Output(w, v)
  {
    hide Laid, Good, Link;
  }

  /** The source half: the root slot, the first pass, and the charges taken back. */
  method Survey(src: Capn) returns (ok: bool, first: Ptr, need: nat)
    requires Session(src) && src.nestingLimit > 0
    modifies src`traversalUsed, src`decodeErr, src.segs
    ensures Session(src) && src.traversalUsed == old(src.traversalUsed) && RootGrown(old(src.Mem()), src.Mem())
    ensures src.segs == [] || src.segs[0].cap > 0 ==>
      (ok <==> Surveyed(RootWalk(src.Mem(), src.nestingLimit), src.traversalUsed, src.traversalLimit))
    ensures ok ==> RootRead(src.Mem()) == Got(first) && need == 8 + 8 * Size(Val(RootWalk(src.Mem(), src.nestingLimit)))
    ensures !ok ==> src.segs != []
  {
    hide RootRead, Size, Surveyed, MemOf, RootWalk, RootGrown, Val, Capn.Valid;
    ghost var was := src.Mem();
    if src.segs == [] {
      GrownSame(was);
      NoRoot(src.Mem(), src.nestingLimit, src.traversalUsed, src.traversalLimit);
      return true, Null, 8;
    }
    var rooted := Root(src);
    if !rooted {
      return false, Null, 8;
    }
    SessionValid(src);
    ok, first, need := FreePass(src);
  }

  lemma SessionValid(c: Capn)
    requires Session(c)
    ensures c.Valid()
  {
  }

  /** The first pass, with its charges taken back. */
  method FreePass(src: Capn) returns (ok: bool, first: Ptr, need: nat)
    requires src.Valid() && |src.segs| > 0 && src.segs[0].len > 0 && src.nestingLimit > 0
    modifies src`traversalUsed, src`decodeErr
    ensures src.traversalUsed == old(src.traversalUsed)
    ensures ok <==> Surveyed(RootWalk(src.Mem(), src.nestingLimit), src.traversalUsed, src.traversalLimit)
    ensures ok ==> RootRead(src.Mem()) == Got(first) && need == 8 + 8 * Size(Val(RootWalk(src.Mem(), src.nestingLimit)))
  {
    hide RootRead, Size, Surveyed, MemOf, RootWalk, Val, Capn.Valid;
    var saved := src.traversalUsed;
    ok, first, need := FirstPass(src);
    src.traversalUsed := saved;
  }

  lemma GrownSame(m: Mem)
    ensures RootGrown(m, m)
  {
  }

  lemma NoRoot(m: Mem, nest: nat, used: nat, limit: nat)
    requires nest > 0 && m == []
    ensures RootRead(m) == Got(Null) && RootWalk(m, nest) == Seen(Nil, 0) && Val(RootWalk(m, nest)) == Nil
    ensures Size(Nil) == 0 && Surveyed(Seen(Nil, 0), used, limit)
  {
  }

  /** The destination half: a segment that is large enough, and the second pass. */
  method Produce(src: Capn, dst: Capn, first: Ptr, need: nat) returns (ok: bool)
    requires Session(src) && src.nestingLimit > 0 && src != dst && dst.segs == []
    requires var w := RootWalk(src.Mem(), src.nestingLimit);
      && Surveyed(w, src.traversalUsed, src.traversalLimit) && need == 8 + 8 * Size(w.v)
        && RootRead(src.Mem()) == Got(first)
    modifies src`traversalUsed, src`decodeErr, dst`segs
    ensures src.Mem() == old(src.Mem()) && src.traversalUsed == old(src.traversalUsed)
    ensures var w := RootWalk(src.Mem(), src.nestingLimit);
      ok ==>
        && |dst.segs| == 1 && dst.Valid() && 8 + 8 * Size(w.v) <= INT_MAX && Good(w.v)
        && Output(dst.segs[0].Words(), w.v)
    ensures !ok ==> need > INT_MAX || dst.segs == [] || (|dst.segs| == 1 && 8 * dst.segs[0].cap < need)
  {
    hide RootRead, Walk, Size, Surveyed, MemOf, Sound, Output, RootWalk, Good;
    if need > INT_MAX {
      return false;
    }
    var saved := src.traversalUsed;
    var made := NewDestination(dst);
    if !made || 8 * dst.segs[0].cap < need {
      return false;
    }
    var ds := dst.segs[0];
    ds.len := 1;
    assert ds.Words() == [0];
    if first == Null {
      NullOutput(src.Mem(), src.nestingLimit);
      ok := true;
    } else {
      ok := SecondPass(src, ds, first);
      src.traversalUsed := saved;
    }
  }

  lemma NullOutput(m: Mem, nest: nat)
    requires nest > 0 && RootRead(m) == Got(Null)
    ensures RootWalk(m, nest) == Seen(Nil, 0) && Good(Nil) && Output([0], Nil)
  {
  }

  /**
   capn_canonicalize. It succeeds exactly when the destination is another, empty message whose segment
   can be created with enough room, the source has room for its root, and the source can be
   canonicalized; then the one segment of the destination holds the canonical form and nothing else.
   */
  method Run(src: Capn, dst: Capn) returns (ok: bool)
    requires Session(src) && src.nestingLimit > 0 && (src != dst && dst.segs != [] ==> dst.Valid())
    modifies src`traversalUsed, src`decodeErr, src.segs, dst`segs
    ensures src.segs == old(src.segs) && Session(src) && src.traversalUsed == old(src.traversalUsed)
    ensures RootGrown(old(src.Mem()), src.Mem())
    ensures ok ==> |dst.segs| == 1 && dst.Valid() && Canonicalizable(RootWalk(src.Mem(), src.nestingLimit),
      src.traversalUsed, src.traversalLimit)
    ensures ok ==> var v := RootWalk(src.Mem(), src.nestingLimit).v; Good(v) && Output(dst.segs[0].Words(), v)
    ensures ok ==> forall path :: ReadsAlike(src.Mem(), dst.segs[0].Words(), path)
    ensures !ok ==>
      || src == dst || old(dst.segs) != [] || (src.segs != [] && src.segs[0].cap == 0)
      || !Canonicalizable(RootWalk(src.Mem(), src.nestingLimit), src.traversalUsed, src.traversalLimit)
      || dst.segs == [] || 8 * dst.segs[0].cap < 8 + 8 * Size(RootWalk(src.Mem(), src.nestingLimit).v)
  {
    hide RootWalk, Size, Surveyed, MemOf, Output, ReadsAlike, Good;
    ok := false;
    if src == dst || dst.segs != [] {
      return;
    }
    var first, need;
    ok, first, need := Survey(src);
    if ok {
      ok := Produce(src, dst, first, need);
      forall path | ok ensures ReadsAlike(src.Mem(), dst.segs[0].Words(), path) {
        CanonicalFormReads(src.Mem(), src.nestingLimit, dst.segs[0].Words(), path);
      }
    }
  }

  // ---- what the output is -------------------------------------------------------------------

  /** What the first pass finds is canonical, and no more expensive to read than the source. */
  lemma RootCanonical(m: Mem, nest: nat)
    requires nest > 0 && RootWalk(m, nest).Seen?
    ensures var w := RootWalk(m, nest);
      && Good(w.v) && Trimmed(w.v) && DeepEnough(w.v, nest - 1) && Charge(w.v) + AllCharges(w.v) <= w.cost
    ensures RootMeaning(m, nest).Means? && Good(RootMeaning(m, nest).v)
      && Trim(RootMeaning(m, nest).v) == RootWalk(m, nest).v
  {
    var p := RootRead(m).p;
    WalkCanonical(m, p, nest - 1, {});
    WalkMeans(m, p, nest - 1, {});
    hide RootRead, Walk, Sound, Good, Trimmed, DeepEnough, Trim, Decoded;
  }

  /**
   Canonical form is unique: sources that mean the same up to truncation, however they are laid out,
   give the same words.
   */
  lemma CanonicalFormUnique(m: Mem, nest: nat, w: seq<word>, m': Mem, nest': nat, w': seq<word>)
    requires nest > 0 && nest' > 0 && RootWalk(m, nest).Seen? && RootWalk(m', nest').Seen?
    requires Good(RootWalk(m, nest).v) && Output(w, RootWalk(m, nest).v)
    requires Good(RootWalk(m', nest').v) && Output(w', RootWalk(m', nest').v)
    ensures var u, u' := RootMeaning(m, nest), RootMeaning(m', nest');
      u.Means? && u'.Means? && Good(u.v) && Good(u'.v) && (Trim(u.v) == Trim(u'.v) ==> w == w')
  {
    RootCanonical(m, nest);
    RootCanonical(m', nest');
    hide RootWalk, RootMeaning, Trim, Good, Output;
    if Trim(RootMeaning(m, nest).v) == Trim(RootMeaning(m', nest').v) {
      OutputUnique(w, w', RootWalk(m, nest).v);
    }
  }

  /** The root of a canonical message reads as the value that was put behind it. */
  lemma OutputRoot(w: seq<word>, v: Value)
    requires Good(v) && Output(w, v)
    ensures RootRead([w]) == Got(PtrTo(v, 0, 1)) && (PtrTo(v, 0, 1) == Null <==> v == Nil)
  {
    LinkReads(w, v, 0, 1);
    LinkZero(v, 0, 1);
    hide ReadSlot, Laid, Good, Link;
  }

  /** Canonicalization preserves meaning, up to truncation. */
  lemma CanonicalFormMeans(m: Mem, nest: nat, w: seq<word>)
    requires nest > 0 && RootWalk(m, nest).Seen? && Good(RootWalk(m, nest).v) && Output(w, RootWalk(m, nest).v)
    ensures RootMeaning(m, nest).Means? && Good(RootMeaning(m, nest).v)
    ensures RootMeaning([w], nest) == Means(Trim(RootMeaning(m, nest).v))
  {
    var v := RootWalk(m, nest).v;
    RootCanonical(m, nest);
    OutputRoot(w, v);
    LaidMeans(w, v, 0, 1, nest - 1);
    hide RootWalk, RootRead, Trim, Good, Laid, DeepEnough, Trimmed, Decoded;
  }

  lemma MeansRoot(m: Mem, nest: nat)
    requires nest > 0 && RootMeaning(m, nest).Means?
    ensures RootRead(m).Got? && RootMeaning(m, nest) == Decoded(m, RootRead(m).p, nest - 1)
  {
    hide RootRead, Sound, Decoded;
  }

  /** Along a path from the roots the canonical message shows what the source does. */
  ghost predicate ReadsAlike(m: Mem, w: seq<word>, path: seq<Hop>) {
    && RootRead(m).Got? && RootRead([w]).Got?
    && var p, p' := Go(m, RootRead(m).p, path), Go([w], RootRead([w]).p, path);
    p.Got? && p'.Got? && Alike(m, p.p, [w], p'.p)
  }

  /**
   Every reader sees the same: along every path there is the same null pointer, the same capability, or an object
   with the same elements: every bit of every data and bit list, every word of every struct.
   */
  lemma CanonicalFormReads(m: Mem, nest: nat, w: seq<word>, path: seq<Hop>)
    requires nest > 0 && RootWalk(m, nest).Seen? && Good(RootWalk(m, nest).v) && Output(w, RootWalk(m, nest).v)
    ensures ReadsAlike(m, w, path)
  {
    hide RootWalk, RootRead, RootMeaning, Sound, Decoded, Trim, Good, Output, Go, Alike;
    CanonicalFormMeans(m, nest, w);
    MeansRoot(m, nest);
    MeansRoot([w], nest);
    TruncationReads(m, RootRead(m).p, nest - 1, [w], RootRead([w]).p, nest - 1, path);
  }

  /**
   Canonicalizing a canonical message again, under the same limits: the message has become canonicalizable
   once and for all, except where an empty struct clashes with its parent; and then it gives the same words.
   */
  lemma CanonicalFormAgain(m: Mem, nest: nat, used: nat, limit: nat, w: seq<word>)
    requires nest > 0 && Canonicalizable(RootWalk(m, nest), used, limit)
    requires Good(RootWalk(m, nest).v) && Output(w, RootWalk(m, nest).v)
    ensures var v := RootWalk(m, nest).v;
      && (Canonicalizable(RootWalk([w], nest), 0, limit) <==> NoClash(v))
      && (NoClash(v) ==> RootWalk([w], nest).v == v && forall w' :: Output(w', v) ==> w' == w)
  {
    hide *;
    var v := RootWalk(m, nest).v;
    RootCanonical(m, nest);
    RewalkRoot(w, v, nest);
    StillCanonicalizable(RootWalk(m, nest), used, RootWalk([w], nest), limit);
    forall w' | Output(w', v) ensures w' == w {
      OutputUnique(w, w', v);
    }
  }

  lemma RewalkRoot(w: seq<word>, v: Value, nest: nat)
    requires nest > 0 && Good(v) && Output(w, v) && Trimmed(v) && DeepEnough(v, nest - 1)
    ensures RootWalk([w], nest) == if NoClash(v) then Seen(v, Charge(v) + AllCharges(v)) else Stuck
  {
    OutputLaid(w, v);
    NoPath(1);
    AgainIs(v, nest - 1);
    hide *;
    OutputRoot(w, v);
    Rewalk(w, v, 0, 1, nest - 1, {});
    ChargeOfPtr(v, 0, 1);
    RootWalkIs([w], nest, PtrTo(v, 0, 1));
  }

  lemma NoPath(e: nat)
    ensures Below({}, e)
  {
  }

  lemma AgainIs(v: Value, rem: nat)
    requires DeepEnough(v, rem)
    ensures Again(v, rem) == if NoClash(v) then Seen(v, AllCharges(v)) else Stuck
  {
    hide DeepEnough, NoClash, AllCharges;
  }

  lemma RootWalkIs(m: Mem, nest: nat, p: Ptr)
    requires nest > 0 && RootRead(m) == Got(p) && Sound(m, p)
    ensures var w := Walk(m, p, nest - 1, {});
      RootWalk(m, nest) == if w.Seen? then Seen(w.v, Cost(p) + w.cost) else Stuck
  {
    hide RootRead, Walk, Cost, Sound;
  }

  lemma OutputLaid(w: seq<word>, v: Value)
    requires Good(v) && Output(w, v)
    ensures Laid(w, v, 1) && 0 < |w| <= MAX_WORDS
  {
  }

  lemma StillCanonicalizable(w: Walked, used: nat, w': Walked, limit: nat)
    requires Canonicalizable(w, used, limit) && (w'.Seen? ==> w'.v == w.v && w'.cost <= w.cost)
    ensures Canonicalizable(w', 0, limit) <==> w'.Seen?
  {
    hide Size, Bulk;
  }

  lemma ChargeOfPtr(v: Value, q: nat, e: nat)
    ensures Cost(PtrTo(v, q, e)) == Charge(v)
  {
  }

  /**
   The exception at its smallest, and as write_ptr itself lays it out: a struct that holds nothing but a
   pointer to an empty struct. Both pointers can be read, yet the message is refused, whatever the limits.
   */
  lemma HolderIsRefused(w: seq<word>, nest: nat)
    requires nest > 1 && |w| == 2 && w[0] == Encode(StructPtr(0, 0, 1)) && w[1] == Encode(StructPtr(-1, 0, 0))
    ensures RootRead([w]) == Got(Obj(0, 1, Struct(0, 1), false))
      && ReadSlot([w], 0, 1) == Got(Obj(0, 1, Struct(0, 0), false))
    ensures RootWalk([w], nest) == Stuck
  {
    DecodeEncode(StructPtr(0, 0, 1));
    DecodeEncode(StructPtr(-1, 0, 0));
    DecodeZero();
    hide Encode, Decode;
    var p, q := Obj(0, 1, Struct(0, 1), false), Obj(0, 1, Struct(0, 0), false);
    assert ReadSlot([w], 0, 0) == Got(p) && ReadSlot([w], 0, 1) == Got(q);
    hide ReadSlot;
    HolderStuck(w, p, q, nest - 1);
  }

  lemma HolderStuck(w: seq<word>, p: Ptr, q: Ptr, rem: nat)
    requires rem > 0 && p.Obj? && q.Obj? && KeyOf(p) == KeyOf(q) && p.shape == Struct(0, 1) && p.seg == 0
    requires Object([w], p) && ReadSlot([w], 0, p.data) == Got(q) && w[p.data] != 0
    ensures Walk([w], p, rem, {}) == Stuck
  {
    var i: nat, j: nat, path := 0, 0, {KeyOf(p)};
    HolderCut(w, p, q);
    StuckOnPath(w, q, rem - 1, path);
    hide ReadSlot, KeyOf, Object, CutOf, Col, Target, Rows, Spent;
    assert Child([w], p, i, j, rem, path) == Stuck by {
      hide Walk;
    }
    assert !AllSeen([w], p, rem, path) by {
      hide Child;
    }
    assert {} + path == path;
    hide AllSeen, Child;
  }

  lemma HolderCut(w: seq<word>, p: Ptr, q: Ptr)
    requires p.Obj? && p.shape == Struct(0, 1) && p.seg == 0
    requires Object([w], p) && ReadSlot([w], 0, p.data) == Got(q) && w[p.data] != 0
    ensures var j: nat := 0; Target([w], p, j, j) == Got(q) && Col([w], p, j, j) != 0
    ensures CutOf([w], p) == Struct(0, 1)
  {
    var i: nat, j: nat := 0, 0;
    hide ReadSlot;
    assert Target([w], p, i, j) == Got(q) && Col([w], p, i, j) != 0;
    hide Object, Target, Col;
    assert !ZeroCol([w], p, j);
    hide ZeroCol;
    TopIs(ZeroCols([w], p, j, 1), 1);
  }
}
