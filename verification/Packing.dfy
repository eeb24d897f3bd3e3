/** Bytes, and the little-endian integers the framing layer stores. */
module Bytes {
  type byte = x: int | 0 <= x < 256

  function Zeros(n: nat): (r: seq<byte>)
    ensures |r| == n
    ensures forall i | 0 <= i < n :: r[i] == 0
  {
    seq(n, _ => 0)
  }
}

/**
 The packed format ("Packing" in the Cap'n Proto encoding specification), stated twice and
 independently: `Pack` is the greedy encoder that capn_deflate implements on one input, and
 `Unpack` is the meaning of a packed stream.
 */
module Packing {
  import opened Powers
  import opened Bytes

  function NonZeros(w: seq<byte>): (n: nat)
    ensures n <= |w|
  {
    if w == [] then 0 else (if w[0] != 0 then 1 else 0) + NonZeros(w[1..])
  }

  /** The tag byte: bit i is set when byte i of the word is not zero. */
  function Tag(w: seq<byte>): nat {
    if w == [] then 0 else (if w[0] != 0 then 1 else 0) + 2 * Tag(w[1..])
  }

  function Squeeze(w: seq<byte>): (s: seq<byte>)
    ensures |s| == NonZeros(w)
  {
    if w == [] then [] else (if w[0] != 0 then [w[0]] else []) + Squeeze(w[1..])
  }

  function PopCount(tag: nat, n: nat): (c: nat)
    ensures c <= n
  {
    if n == 0 then 0 else tag % 2 + PopCount(tag / 2, n - 1)
  }

  /** Spreads the bytes of `p` over the set bits of `tag`, least significant bit first. */
  function Expand(tag: nat, n: nat, p: seq<byte>): (w: seq<byte>)
    requires |p| >= PopCount(tag, n)
    ensures |w| == n
  {
    if n == 0 then []
    else if tag % 2 == 1 then [p[0]] + Expand(tag / 2, n - 1, p[1..])
    else [0] + Expand(tag / 2, n - 1, p)
  }

  lemma {:induction false} TagBounds(w: seq<byte>)
    requires |w| == 8
    ensures Tag(w) < 256
    ensures Tag(w) == 0 <==> NonZeros(w) == 0
    ensures Tag(w) == 255 <==> NonZeros(w) == 8
  {
    TagRange(w);
    assert Pow2(8) == 256 by { assert Pow2(4) == 16; }
  }

  /** Tag lies between 0 (no byte set) and 2^|w| - 1 (all bytes set), and hits either end only there. */
  lemma {:induction false} TagRange(w: seq<byte>)
    ensures Tag(w) < Pow2(|w|)
    ensures Tag(w) == 0 <==> NonZeros(w) == 0
    ensures Tag(w) == Pow2(|w|) - 1 <==> NonZeros(w) == |w|
  {
    if w != [] {
      TagRange(w[1..]);
    }
  }

  /** Expanding the squeezed bytes of a word under its own tag gives the word back. */
  lemma {:induction false} ExpandTag(w: seq<byte>)
    ensures PopCount(Tag(w), |w|) == NonZeros(w)
    ensures Expand(Tag(w), |w|, Squeeze(w)) == w
  {
    if w != [] {
      ExpandTag(w[1..]);
      TagParts(w);
      var p, t := Squeeze(w), Tag(w);
      hide Tag, Squeeze, NonZeros, PopCount, Expand;
      PopNext(t, |w|);
      ExpandNext(t, |w|, p);
      if w[0] != 0 {
        assert p[1..] == Squeeze(w[1..]);
        assert w == [p[0]] + w[1..];
      } else {
        assert p == Squeeze(w[1..]);
        assert w == [0] + w[1..];
      }
    }
  }

  lemma PopNext(tag: nat, n: nat)
    requires n > 0
    ensures PopCount(tag, n) == PopCount(tag / 2, n - 1) + if tag % 2 == 1 then 1 else 0
  {
  }

  lemma ExpandNext(tag: nat, n: nat, p: seq<byte>)
    requires |p| >= PopCount(tag, n)
    ensures n > 0 && tag % 2 == 1 ==> p != []
    ensures Expand(tag, n, p) ==
      if n == 0 then [] else if tag % 2 == 1 then [p[0]] + Expand(tag / 2, n - 1, p[1..]) else [0] + Expand(tag / 2,
        n - 1, p)
  {
  }

  lemma TagParts(w: seq<byte>)
    requires w != []
    ensures Tag(w) / 2 == Tag(w[1..]) && Tag(w) % 2 == (if w[0] != 0 then 1 else 0)
    ensures Squeeze(w) == (if w[0] != 0 then [w[0]] else []) + Squeeze(w[1..])
    ensures NonZeros(w) == NonZeros(w[1..]) + if w[0] != 0 then 1 else 0
  {
  }

  predicate Words(ws: seq<byte>) { |ws| % 8 == 0 }

  /** How many of the leading words are all zero, counting at most `limit`. */
  function ZeroRun(ws: seq<byte>, limit: nat): (n: nat)
    requires Words(ws)
    ensures n <= limit && 8 * n <= |ws|
    ensures forall i | 0 <= i < 8 * n :: ws[i] == 0
  {
    if limit > 0 && ws != [] && NonZeros(ws[..8]) == 0
    then
      NoNonZeros(ws[..8]);
      1 + ZeroRun(ws[8..], limit - 1)
    else 0
  }

  lemma {:induction false} NoNonZeros(w: seq<byte>)
    ensures NonZeros(w) == 0 <==> forall i | 0 <= i < |w| :: w[i] == 0
  {
    if w != [] {
      NoNonZeros(w[1..]);
      assert forall i | 0 < i < |w| :: w[i] == w[1..][i - 1];
    }
  }

  /** A word that a raw span may include: fewer than two zero bytes. */
  predicate Dense(w: seq<byte>) { NonZeros(w) + 2 > |w| }

  function DenseRun(ws: seq<byte>, limit: nat): (n: nat)
    requires Words(ws)
    ensures n <= limit && 8 * n <= |ws|
  {
    if limit > 0 && ws != [] && Dense(ws[..8]) then 1 + DenseRun(ws[8..], limit - 1) else 0
  }

  /** How many words the next token covers. */
  function TokenWords(ws: seq<byte>): (n: nat)
    requires Words(ws) && ws != []
    ensures 1 <= n <= 256 && 8 * n <= |ws|
  {
    if NonZeros(ws[..8]) == 0 then ZeroRun(ws, 256)
    else if NonZeros(ws[..8]) == 8 then 1 + DenseRun(ws[8..], 255)
    else 1
  }

  /** The next token, with its raw span if it has one. */
  function Token(ws: seq<byte>): (t: seq<byte>)
    requires Words(ws) && ws != []
    ensures 2 <= |t| <= 8 * TokenWords(ws) + 2
  {
    var w, n := ws[..8], TokenWords(ws);
    if NonZeros(w) == 0 then [0, n - 1]
    else if NonZeros(w) == 8 then [255] + w + [n - 1] + ws[8..8 * n]
    else
      TagBounds(w);
      [Tag(w)] + Squeeze(w)
  }

  function Pack(ws: seq<byte>): (p: seq<byte>)
    requires Words(ws)
    decreases |ws|
  {
    if ws == [] then [] else Token(ws) + Pack(ws[8 * TokenWords(ws)..])
  }

  /** What is still to be emitted for `ws` while `raw` bytes of a raw span are outstanding. */
  function PackRest(raw: nat, ws: seq<byte>): seq<byte>
    requires (|ws| as int - raw) % 8 == 0
  {
    if raw >= |ws| then ws else ws[..raw] + Pack(ws[raw..])
  }

  lemma PackRestAfterCopy(raw: nat, ws: seq<byte>, sz: nat)
    requires (|ws| as int - raw) % 8 == 0 && sz <= raw && sz <= |ws|
    ensures PackRest(raw, ws) == ws[..sz] + PackRest(raw - sz, ws[sz..])
  {
    hide Pack;
    if raw >= |ws| {
      assert ws == ws[..sz] + ws[sz..];
    } else {
      assert ws[..raw] == ws[..sz] + ws[sz..][..raw - sz];
      assert ws[sz..][raw - sz..] == ws[raw..];
    }
  }

  lemma PackRestSplit(raw: nat, ws: seq<byte>)
    requires (|ws| as int - raw) % 8 == 0 && raw <= |ws|
    ensures PackRest(raw, ws) == ws[..raw] + Pack(ws[raw..])
  {
    if raw == |ws| {
      assert ws[raw..] == [];
    }
  }

  lemma PackRestAfterToken(ws: seq<byte>, emitted: seq<byte>, raw: nat, used: nat)
    requires Words(ws) && ws != [] && raw + used <= |ws|
    requires used % 8 == 0 && raw + used == 8 * TokenWords(ws)
    requires Token(ws) == emitted + ws[used..used + raw]
    ensures PackRest(0, ws) == emitted + PackRest(raw, ws[used..])
  {
    hide Token, TokenWords, PackRest;
    var span, rest := ws[used..used + raw], Pack(ws[used + raw..]);
    assert PackRest(raw, ws[used..]) == span + rest by {
      PackRestSplit(raw, ws[used..]);
      assert ws[used..][..raw] == span && ws[used..][raw..] == ws[used + raw..];
    }
    assert PackRest(0, ws) == Pack(ws) by {
      PackRestSplit(0, ws);
      assert ws[0..] == ws;
    }
    Regroup(emitted, span, rest);
  }

  /** Input that is left always costs output: all of its next token, when no raw span is open. */
  lemma PackRestGrows(raw: nat, ws: seq<byte>)
    requires (|ws| as int - raw) % 8 == 0 && ws != []
    ensures |PackRest(raw, ws)| > 0
    ensures raw == 0 ==> |PackRest(raw, ws)| >= |Token(ws)|
  {
    hide Token, TokenWords;
    if raw == 0 {
      assert ws[0..] == ws;
    }
  }

  // ---- where a bounded output stops -------------------------------------------------------

  /** The input that the head of a token takes; the rest of its words are the raw span. */
  function HeadUsed(ws: seq<byte>): (n: nat)
    requires Words(ws) && ws != []
    ensures 8 <= n <= 8 * TokenWords(ws) && n % 8 == 0
  {
    if NonZeros(ws[..8]) == 8 then 8 else 8 * TokenWords(ws)
  }

  function SpanSize(ws: seq<byte>): (n: nat)
    requires Words(ws) && ws != []
    ensures n % 8 == 0 && HeadUsed(ws) + n <= |ws|
  {
    8 * TokenWords(ws) - HeadUsed(ws)
  }

  function HeadSize(ws: seq<byte>): (n: nat)
    requires Words(ws) && ws != []
    ensures 2 <= n <= 10
  {
    |Token(ws)| - SpanSize(ws)
  }

  /** How far one output buffer of `room` bytes goes: bytes emitted, input used, raw bytes left to copy. */
  datatype Filled = Filled(out: nat, used: nat, raw: nat) {
    function Plus(out': nat, used': nat): Filled { Filled(out + out', used + used', raw) }
  }

  function Fill(raw: nat, ws: seq<byte>, room: nat): (f: Filled)
    requires (|ws| as int - raw) % 8 == 0
    ensures f.used <= |ws| && f.out <= room && (|ws| as int - f.used - f.raw) % 8 == 0
    decreases |ws|
  {
    hide TokenWords, Token, HeadUsed, SpanSize, HeadSize;
    if ws == [] || room == 0 then Filled(0, 0, raw)
    else if raw > 0 then
      var sz := Least(raw, Least(|ws|, room));
      Fill(raw - sz, ws[sz..], room - sz).Plus(sz, sz)
    else if room < HeadSize(ws) then Filled(0, 0, 0)
    else Fill(SpanSize(ws), ws[HeadUsed(ws)..], room - HeadSize(ws)).Plus(HeadSize(ws), HeadUsed(ws))
  }

  /** A copy of raw bytes is one step of filling. */
  lemma FillAfterCopy(raw: nat, ws: seq<byte>, room: nat)
    requires (|ws| as int - raw) % 8 == 0 && raw > 0 && ws != [] && room > 0
    ensures var sz := Least(raw, Least(|ws|, room));
      0 < sz <= raw && sz <= |ws| && sz <= room && Fill(raw, ws, room) == Fill(raw - sz, ws[sz..],
        room - sz).Plus(sz, sz)
  {
    hide HeadSize, SpanSize, HeadUsed;
  }

  function Least(a: nat, b: nat): nat { if a < b then a else b }

  /** Everything that can be decoded from `p`; an incomplete last token contributes nothing. */
  function Unpack(p: seq<byte>): seq<byte>
    decreases |p|, 0
  {
    if |p| < 2 then []
    else if p[0] == 255 then
      if |p| < 10 then [] else p[1..9] + UnpackRaw(8 * p[9] as nat, p[10..])
    else if p[0] == 0 then Zeros(8 * (p[1] as nat + 1)) + Unpack(p[2..])
    else
      var k := PopCount(p[0], 8);
      if |p| < 1 + k || k == 0 then [] else Expand(p[0], 8, p[1..1 + k]) + Unpack(p[1 + k..])
  }

  /** As `Unpack`, with `raw` bytes of a raw span to copy first. */
  function UnpackRaw(raw: nat, p: seq<byte>): seq<byte>
    decreases |p|, 1
  {
    if raw > |p| then p else p[..raw] + Unpack(p[raw..])
  }

  // ---- round trip -------------------------------------------------------------------------

  lemma UnpackZeroRun(n: nat, q: seq<byte>)
    requires 1 <= n <= 256
    ensures Unpack([0, n - 1] + q) == Zeros(8 * n) + Unpack(q)
  {
    var p := [0, n - 1] + q;
    assert p[2..] == q;
  }

  lemma UnpackSpan(w: seq<byte>, n: nat, run: seq<byte>, q: seq<byte>)
    requires |w| == 8 && n < 256 && |run| == 8 * n
    ensures Unpack([255] + w + [n] + run + q) == w + run + Unpack(q)
  {
    var p := [255] + w + [n] + run + q;
    assert p[0] == 255 && p[9] == n && p[1..9] == w && p[10..] == run + q;
    assert (run + q)[..8 * n] == run && (run + q)[8 * n..] == q;
  }

  lemma UnpackTagged(w: seq<byte>, q: seq<byte>)
    requires |w| == 8 && 0 < NonZeros(w) < 8
    ensures Tag(w) < 256
    ensures Unpack([Tag(w)] + Squeeze(w) + q) == w + Unpack(q)
  {
    TagBounds(w);
    ExpandTag(w);
    var p, k := [Tag(w)] + Squeeze(w) + q, NonZeros(w);
    assert p[1..1 + k] == Squeeze(w) && p[1 + k..] == q;
  }

  /** Packed data may be followed by anything: its words come out first, then the rest. */
  lemma {:induction false} UnpackPack(ws: seq<byte>, rest: seq<byte>)
    requires Words(ws)
    ensures Unpack(Pack(ws) + rest) == ws + Unpack(rest)
    decreases |ws|
  {
    hide Unpack, Token, TokenWords;
    if ws == [] {
      assert Pack(ws) + rest == rest;
    } else {
      var j := 8 * TokenWords(ws);
      var tail := ws[j..];
      UnpackPack(tail, rest);
      UnpackToken(ws, Pack(tail) + rest);
      Regroup(Token(ws), Pack(tail), rest);
      Regroup(ws[..j], tail, Unpack(rest));
      assert ws[..j] + tail == ws;
    }
  }

  lemma Regroup<T>(a: seq<T>, b: seq<T>, c: seq<T>)
    ensures a + b + c == a + (b + c)
  {
  }

  lemma UnpackToken(ws: seq<byte>, q: seq<byte>)
    requires Words(ws) && ws != []
    ensures Unpack(Token(ws) + q) == ws[..8 * TokenWords(ws)] + Unpack(q)
  {
    hide Unpack;
    var w, n := ws[..8], TokenWords(ws);
    if NonZeros(w) == 0 {
      UnpackZeroRun(n, q);
      assert Zeros(8 * n) == ws[..8 * n];
    } else if NonZeros(w) == 8 {
      UnpackSpan(w, n - 1, ws[8..8 * n], q);
      assert w + ws[8..8 * n] == ws[..8 * n];
    } else {
      UnpackTagged(w, q);
    }
  }

  function Concat(parts: seq<seq<byte>>): seq<byte> {
    if parts == [] then [] else parts[0] + Concat(parts[1..])
  }

  function PackEach(parts: seq<seq<byte>>): seq<byte>
    requires forall i | 0 <= i < |parts| :: Words(parts[i])
  {
    if parts == [] then [] else Pack(parts[0]) + PackEach(parts[1..])
  }

  /** Decoding the packings of several segments, one after the other, gives their concatenation. */
  lemma {:induction false} UnpackPackEachThen(parts: seq<seq<byte>>, rest: seq<byte>)
    requires forall i | 0 <= i < |parts| :: Words(parts[i])
    ensures Unpack(PackEach(parts) + rest) == Concat(parts) + Unpack(rest)
  {
    hide Unpack, Pack;
    if parts == [] {
      assert [] + rest == rest;
    } else {
      var others := parts[1..];
      UnpackPackEachThen(others, rest);
      UnpackPack(parts[0], PackEach(others) + rest);
      Regroup(Pack(parts[0]), PackEach(others), rest);
      Regroup(parts[0], Concat(others), Unpack(rest));
    }
  }

  // ---- size -------------------------------------------------------------------------------

  /** Largest packing of n words. */
  function PackBound(n: nat): nat { if n == 0 then 0 else 8 * n + (n + 3) / 2 }

  /**
   Packing n >= 1 words yields at most 8n + (n + 3) / 2 bytes. The second clause is what makes the
   induction go through: input that starts with a word of two or more zero bytes, which is what
   ends a raw span early, does better.
   */
  lemma {:induction false} PackSize(ws: seq<byte>)
    requires Words(ws)
    ensures |Pack(ws)| <= PackBound(|ws| / 8)
    ensures ws != [] && !Dense(ws[..8]) ==> |Pack(ws)| <= |ws| + |ws| / 16
    ensures ws != [] ==> |Pack(ws)| >= 2
    decreases |ws|
  {
    hide Token, TokenWords, Dense;
    if ws != [] {
      var tail := ws[8 * TokenWords(ws)..];
      TokenSize(ws);
      PackSize(tail);
    }
  }

  /** A token that grows its words grows them by two bytes, and only where a raw span ends. */
  lemma TokenSize(ws: seq<byte>)
    requires Words(ws) && ws != []
    ensures var n, tail := TokenWords(ws), ws[8 * TokenWords(ws)..];
      if !Dense(ws[..8]) then |Token(ws)| < 8 * n
      else |Token(ws)| <= 8 * n + 2 && (|Token(ws)| <= 8 * n || n == 256 || tail == [] || !Dense(tail[..8]))
  {
    hide NonZeros, Tag, DenseRun, ZeroRun;
    if NonZeros(ws[..8]) == 8 {
      DenseRunStops(ws[8..], 255);
      var n := TokenWords(ws);
      assert ws[8..][8 * (n - 1)..] == ws[8 * n..];
    }
  }

  /** A dense run ends at its limit, at the end of the input, or before a word that is not dense. */
  lemma {:induction false} DenseRunStops(ws: seq<byte>, limit: nat)
    requires Words(ws)
    ensures var n := DenseRun(ws, limit);
      n == limit || ws[8 * n..] == [] || !Dense(ws[8 * n..][..8])
  {
    if limit > 0 && ws != [] && Dense(ws[..8]) {
      DenseRunStops(ws[8..], limit - 1);
      var n := DenseRun(ws[8..], limit - 1);
      assert ws[8..][8 * n..] == ws[8 * (n + 1)..];
    }
  }

  // ---- what the encoder chooses, byte by byte -----------------------------------------------

  /** A zero run ends at its limit, at the end of the input, or before a word that is not zero. */
  lemma {:induction false} ZeroRunStops(ws: seq<byte>, limit: nat)
    requires Words(ws)
    ensures var n := ZeroRun(ws, limit);
      n == limit || ws[8 * n..] == [] || NonZeros(ws[8 * n..][..8]) > 0
  {
    if limit > 0 && ws != [] && NonZeros(ws[..8]) == 0 {
      ZeroRunStops(ws[8..], limit - 1);
      var n := ZeroRun(ws[8..], limit - 1);
      assert ws[8..][8 * n..] == ws[8 * (n + 1)..];
    }
  }

  lemma {:induction false} DenseRunIsDense(ws: seq<byte>, limit: nat, i: nat)
    requires Words(ws) && i < DenseRun(ws, limit)
    ensures Dense(ws[8 * i..][..8])
  {
    if i > 0 {
      DenseRunIsDense(ws[8..], limit - 1, i - 1);
      assert ws[8..][8 * (i - 1)..] == ws[8 * i..];
    }
  }

  lemma {:induction false} AllNonZeros(w: seq<byte>)
    ensures NonZeros(w) == |w| <==> 0 !in w
  {
    if w != [] {
      AllNonZeros(w[1..]);
      assert w == [w[0]] + w[1..];
    }
  }

  /** No two of its bytes are zero. */
  ghost predicate OneZeroAtMost(w: seq<byte>) { forall a, b | 0 <= a < b < |w| :: w[a] != 0 || w[b] != 0 }

  lemma {:induction false} DenseMeans(w: seq<byte>)
    ensures Dense(w) <==> OneZeroAtMost(w)
  {
    if w != [] {
      var t := w[1..];
      AllNonZeros(t);
      DenseMeans(t);
      if OneZeroAtMost(w) {
        assert forall a, b | 0 <= a < b < |t| :: t[a] == w[a + 1] && t[b] == w[b + 1];
      } else if w[0] != 0 {
        var a, b :| 0 <= a < b < |w| && w[a] == 0 && w[b] == 0;
        assert t[a - 1] == 0 && t[b - 1] == 0;
      }
    }
  }

  ghost predicate AllZero(w: seq<byte>) { forall i | 0 <= i < |w| :: w[i] == 0 }

  /**
   What the next token covers, by the bytes: as many zero words as there are, up to 256; a word without a zero byte
   and as many words with at most one as there are behind it, up to 255; or else one word.
   */
  lemma Greedy(ws: seq<byte>)
    requires Words(ws) && ws != []
    ensures var n, w := TokenWords(ws), ws[..8];
      var more := n < 256 && ws[8 * n..] != [];
      if AllZero(w) then
        Token(ws) == [0, n - 1] && AllZero(ws[..8 * n]) && (more ==> !AllZero(ws[8 * n..][..8]))
      else if 0 !in w then
        && Token(ws) == [255] + w + [n - 1] + ws[8..8 * n]
        && (forall i | 1 <= i < n :: OneZeroAtMost(ws[8 * i..][..8]))
        && (more ==> !OneZeroAtMost(ws[8 * n..][..8]))
      else n == 1 && Token(ws) == [Tag(w)] + Squeeze(w)
  {
    var n, w := TokenWords(ws), ws[..8];
    hide Tag, Squeeze, NonZeros, Dense, OneZeroAtMost, ZeroRun, DenseRun, AllZero;
    AllNonZeros(w);
    IsAllZero(w);
    if AllZero(w) {
      GreedyZeros(ws);
    } else if 0 !in w {
      GreedyDense(ws);
    }
  }

  lemma IsAllZero(w: seq<byte>)
    ensures AllZero(w) <==> NonZeros(w) == 0
  {
    NoNonZeros(w);
  }

  lemma GreedyZeros(ws: seq<byte>)
    requires Words(ws) && ws != [] && NonZeros(ws[..8]) == 0
    ensures var n := TokenWords(ws);
      AllZero(ws[..8 * n]) && (n < 256 && ws[8 * n..] != [] ==> !AllZero(ws[8 * n..][..8]))
  {
    hide NonZeros;
    var n := ZeroRun(ws, 256);
    ZeroRunStops(ws, 256);
    hide ZeroRun;
    if n < 256 && ws[8 * n..] != [] {
      NoNonZeros(ws[8 * n..][..8]);
    }
  }

  lemma GreedyDense(ws: seq<byte>)
    requires Words(ws) && ws != [] && NonZeros(ws[..8]) == 8
    ensures var n := TokenWords(ws);
      && (forall i | 1 <= i < n :: OneZeroAtMost(ws[8 * i..][..8]))
      && (n < 256 && ws[8 * n..] != [] ==> !OneZeroAtMost(ws[8 * n..][..8]))
  {
    var n := TokenWords(ws);
    hide NonZeros, Dense, OneZeroAtMost, DenseRun;
    DenseRunStops(ws[8..], 255);
    assert ws[8..][8 * (n - 1)..] == ws[8 * n..];
    if n < 256 && ws[8 * n..] != [] {
      DenseMeans(ws[8 * n..][..8]);
    }
    forall i | 1 <= i < n ensures OneZeroAtMost(ws[8 * i..][..8]) {
      DenseRunIsDense(ws[8..], 255, i - 1);
      assert ws[8..][8 * (i - 1)..] == ws[8 * i..];
      DenseMeans(ws[8 * i..][..8]);
    }
  }

  /** Bit i of the tag says whether byte i is there, and the bytes that are there follow in order. */
  lemma {:induction false} TagBit(w: seq<byte>, i: nat)
    requires i < |w|
    ensures Tag(w) / Pow2(i) % 2 == 1 <==> w[i] != 0
    ensures w[i] != 0 ==> NonZeros(w[..i]) < NonZeros(w) && Squeeze(w)[NonZeros(w[..i])] == w[i]
  {
    TagParts(w);
    var t := w[1..];
    if i == 0 {
      assert w[..0] == [];
    } else {
      TagBit(t, i - 1);
      assert w[..i][0] == w[0] && w[..i][1..] == t[..i - 1];
      TagParts(w[..i]);
      Halved(Tag(w), Pow2(i - 1));
      hide Tag, Squeeze, NonZeros;
    }
  }

  // ---- the bound is attained ----------------------------------------------------------------

  function Ones(n: nat): (w: seq<byte>)
    ensures |w| == n
  {
    seq(n, _ => 1)
  }

  lemma {:induction false} OnesThenZeros(n: nat, z: nat)
    ensures NonZeros(Ones(n) + Zeros(z)) == n
  {
    if n > 0 {
      OnesThenZeros(n - 1, z);
      assert (Ones(n) + Zeros(z))[1..] == Ones(n - 1) + Zeros(z);
    } else {
      assert Ones(0) + Zeros(z) == Zeros(z);
      NoNonZeros(Zeros(z));
    }
  }

  /** Full words and words with two zero bytes by turns; two full words at the end when n is even. */
  function Worst(n: nat): (ws: seq<byte>)
    ensures |ws| == 8 * n
  {
    if n <= 2 then Ones(8 * n) else Ones(8) + (Ones(6) + Zeros(2)) + Worst(n - 2)
  }

  lemma FullWord()
    ensures |Ones(8)| == 8 && NonZeros(Ones(8)) == 8
  {
    OnesThenZeros(8, 0);
    assert Ones(8) + Zeros(0) == Ones(8);
  }

  lemma GappyWord()
    ensures |Ones(6) + Zeros(2)| == 8 && NonZeros(Ones(6) + Zeros(2)) == 6 && !Dense(Ones(6) + Zeros(2))
  {
    OnesThenZeros(6, 2);
  }

  /** A full word in front of one with two zero bytes costs two bytes more than it holds, the other one less. */
  lemma PackPair(rest: seq<byte>)
    requires Words(rest)
    ensures Words(Ones(8) + (Ones(6) + Zeros(2)) + rest)
    ensures |Pack(Ones(8) + (Ones(6) + Zeros(2)) + rest)| == 17 + |Pack(rest)|
  {
    FullWord();
    GappyWord();
    hide NonZeros, Pack, Ones, Zeros, Dense;
    PackTwoWords(Ones(8), Ones(6) + Zeros(2), rest);
  }

  lemma PackTwoWords(a: seq<byte>, b: seq<byte>, rest: seq<byte>)
    requires |a| == |b| == 8 && Words(rest) && NonZeros(a) == 8 && NonZeros(b) == 6 && !Dense(b)
    ensures |Pack(a + b + rest)| == 17 + |Pack(rest)|
  {
    hide NonZeros, Pack, Dense;
    TwoWords(a, b, rest);
    FullToken(a + b + rest);
    GappyToken(b + rest);
  }

  lemma TwoWords(a: seq<byte>, b: seq<byte>, rest: seq<byte>)
    requires |a| == |b| == 8
    ensures var ws := a + b + rest;
      ws[..8] == a && ws[8..] == b + rest && ws[8..][..8] == b && ws[8..][8..] == rest
  {
    assert a + b + rest == a + (b + rest);
  }

  lemma FullToken(ws: seq<byte>)
    requires Words(ws) && ws != [] && NonZeros(ws[..8]) == 8 && (ws[8..] == [] || !Dense(ws[8..][..8]))
    ensures |Pack(ws)| == 10 + |Pack(ws[8..])|
  {
    hide NonZeros, Token, TokenWords;
    FullAlone(ws);
  }

  lemma FullAlone(ws: seq<byte>)
    requires Words(ws) && ws != [] && NonZeros(ws[..8]) == 8 && (ws[8..] == [] || !Dense(ws[8..][..8]))
    ensures TokenWords(ws) == 1 && |Token(ws)| == 10
  {
    hide NonZeros, Pack;
    assert DenseRun(ws[8..], 255) == 0;
    hide DenseRun, Dense;
  }

  lemma GappyToken(ws: seq<byte>)
    requires Words(ws) && ws != [] && NonZeros(ws[..8]) == 6
    ensures |Pack(ws)| == 7 + |Pack(ws[8..])|
  {
    hide NonZeros;
    assert TokenWords(ws) == 1 && |Token(ws)| == 7;
    hide Token, TokenWords;
  }

  lemma PackTwoFull()
    ensures |Pack(Ones(16))| == 18
  {
    var ws := Ones(16);
    OnesThenZeros(8, 0);
    assert Ones(8) + Zeros(0) == Ones(8) && ws[..8] == Ones(8) && ws[8..] == Ones(8) && Ones(8)[..8] == Ones(8);
    hide NonZeros;
    TwoDense(ws);
  }

  lemma TwoDense(ws: seq<byte>)
    requires |ws| == 16 && NonZeros(ws[..8]) == 8 && NonZeros(ws[8..][..8]) == 8
    ensures |Pack(ws)| == 18
  {
    hide NonZeros;
    var k: nat := 255;
    assert DenseRun(ws[8..][8..], k - 1) == 0;
    assert DenseRun(ws[8..], k) == 1;
    assert TokenWords(ws) == 2 && |Token(ws)| == 18;
    hide Token, TokenWords;
    assert ws[16..] == [];
  }

  lemma PackFull()
    ensures |Pack(Ones(8))| == 10
  {
    FullWord();
    hide NonZeros, Ones;
    assert Ones(8)[..8] == Ones(8) && Ones(8)[8..] == [];
    FullToken(Ones(8));
  }

  lemma WorstSteps(n: nat)
    ensures Worst(0) == [] && Worst(1) == Ones(8) && Worst(2) == Ones(16)
    ensures Worst(n + 3) == Ones(8) + (Ones(6) + Zeros(2)) + Worst(n + 1)
  {
    assert Ones(0) == [];
  }

  /** For every number of words there is an input that packs to exactly the bound. */
  lemma {:induction false} BoundAttained(n: nat)
    ensures Words(Worst(n)) && |Pack(Worst(n))| == PackBound(n)
  {
    WorstSteps(if n > 2 then n - 3 else 0);
    hide Worst, Ones, Zeros;
    if n > 2 {
      BoundAttained(n - 2);
      PackPair(Worst(n - 2));
    } else if n == 2 {
      PackTwoFull();
    } else if n == 1 {
      PackFull();
    }
    hide Pack;
  }
}
