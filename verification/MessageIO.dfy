/** Writing a message to memory and reading it back: capn-malloc.c. */
module MessageIO {
  import opened Bytes
  import opened Packing
  import opened PackStream
  import opened PackedIO
  import opened Framing

  /** struct capn_segment; its bytes are data[off..off + len]. */
  class ByteSegment {
    const data: array<byte>
    const off: nat
    var len: nat
    var cap: nat
    var id: nat

    constructor (data: array<byte>, off: nat, len: nat, cap: nat, id: nat)
      ensures this.data == data && this.off == off && this.len == len && this.cap == cap && this.id == id
    {
      this.data, this.off, this.len, this.cap, this.id := data, off, len, cap, id;
    }

    ghost predicate Valid()
      reads this
    {
      len <= cap && off + cap <= data.Length
    }

    ghost function Bytes(): seq<byte>
      reads this, data
      requires Valid()
    {
      data[off..off + len]
    }
  }

  /** struct capn, as far as the framing layer looks at it: the segments from segment 0 on, and their count. */
  class ByteMessage {
    var chain: seq<ByteSegment>
    var segnum: nat

    constructor ()
      ensures chain == [] && segnum == 0
    {
      chain, segnum := [], 0;
    }

    ghost predicate Valid()
      reads this, chain
    {
      (segnum > 0 ==> chain != []) && forall i | 0 <= i < |chain| :: chain[i].Valid()
    }

    /** capn_append_segment, without the tree. */
    method Append(s: ByteSegment)
      modifies this, s
      ensures chain == old(chain) + [s] && segnum == old(segnum) + 1
      ensures s.id == old(segnum) && s.len == old(s.len) && s.cap == old(s.cap)
    {
      s.id := segnum;
      segnum := segnum + 1;
      chain := chain + [s];
    }

    /** capn_root: makes room for the root pointer in segment 0. */
    method Root() returns (ok: bool)
      requires Valid() && chain != []
      modifies chain[0]
      ensures Valid() && (ok <==> chain[0].cap >= 8) && chain[0].cap == old(chain[0].cap)
      ensures ok ==> chain[0].len == if old(chain[0].len) < 8 then 8 else old(chain[0].len)
      ensures !ok ==> chain[0].len == old(chain[0].len)
    {
      var s := chain[0];
      if s.cap < 8 {
        return false;
      }
      if s.len < 8 {
        s.len := 8;
      }
      ok := true;
    }
  }

  ghost function Contents(chain: seq<ByteSegment>): (segs: seq<seq<byte>>)
    reads chain, set s | s in chain :: s.data
    requires forall i | 0 <= i < |chain| :: chain[i].Valid()
    ensures |segs| == |chain|
    ensures forall i | 0 <= i < |chain| :: segs[i] == chain[i].Bytes()
  {
    if chain == [] then [] else Contents(chain[..|chain| - 1]) + [chain[|chain| - 1].Bytes()]
  }

  method StoreWord(p: array<byte>, pos: nat, n: nat)
    requires pos + 4 <= p.Length
    modifies p
    ensures p[pos..pos + 4] == LE32(n)
    ensures p[..pos] == old(p[..pos]) && p[pos + 4..] == old(p[pos + 4..])
  {
    var b := LE32(n);
    p[pos], p[pos + 1], p[pos + 2], p[pos + 3] := b[0], b[1], b[2], b[3];
  }

  // ---- writing ----------------------------------------------------------------------------

  ghost function ChainLens(chain: seq<ByteSegment>): (ns: seq<nat>)
    reads chain
    ensures |ns| == |chain| && forall i | 0 <= i < |chain| :: ns[i] == chain[i].len
  {
    if chain == [] then [] else ChainLens(chain[..|chain| - 1]) + [chain[|chain| - 1].len]
  }

  /** The size entries written so far, with the last word of the table already cleared. */
  ghost predicate Rendered(p: seq<byte>, pos: nat, segnum: nat, ns: seq<nat>) {
    && 0 < segnum && |ns| <= segnum && pos + HeaderSize(segnum) <= |p|
    && 4 + 4 * |ns| <= HeaderSize(segnum)
    && p[pos..pos + 4] == LE32(segnum - 1)
    && p[pos + 4..pos + 4 + 4 * |ns|] == Sizes(ns)
    && (segnum % 2 == 0 ==> p[pos + HeaderSize(segnum) - 4..pos + HeaderSize(segnum)] == LE32(0))
  }

  lemma RenderedHeader(p: seq<byte>, pos: nat, ns: seq<nat>)
    requires ns != [] && Rendered(p, pos, |ns|, ns)
    ensures p[pos..pos + HeaderSize(|ns|)] == Header(ns)
  {
    hide LE32, Sizes;
    var n := |ns|;
    assert p[pos..pos + 4 + 4 * n] == p[pos..pos + 4] + p[pos + 4..pos + 4 + 4 * n];
    if n % 2 == 0 {
      assert HeaderSize(n) == 8 + 4 * n;
      assert p[pos..pos + 8 + 4 * n] == p[pos..pos + 4 + 4 * n] + p[pos + 4 + 4 * n..pos + 8 + 4 * n];
    } else {
      assert HeaderSize(n) == 4 + 4 * n;
    }
  }

  lemma RenderedStep(p: seq<byte>, q: seq<byte>, pos: nat, segnum: nat, ns: seq<nat>, len: nat)
    requires Rendered(p, pos, segnum, ns) && |ns| < segnum && |q| == |p|
    requires var e := pos + 4 + 4 * |ns|;
      e + 4 <= |q| && q[..e] == p[..e] && q[e..e + 4] == LE32(len / 8) && q[e + 4..] == p[e + 4..]
    ensures Rendered(q, pos, segnum, ns + [len])
  {
    var e := pos + 4 + 4 * |ns|;
    TableHolds(segnum, |ns|);
    hide LE32, HeaderSize;
    assert (ns + [len])[..|ns|] == ns;
    assert q[pos..pos + 4] == q[..e][pos..pos + 4] && p[pos..pos + 4] == p[..e][pos..pos + 4];
    assert q[pos + 4..e + 4] == p[pos + 4..e] + q[e..e + 4] by {
      assert q[pos + 4..e] == q[..e][pos + 4..] && p[pos + 4..e] == p[..e][pos + 4..];
    }
    if segnum % 2 == 0 {
      var t := pos + HeaderSize(segnum) - 4;
      assert q[t..t + 4] == q[e + 4..][t - e - 4..t - e] && p[t..t + 4] == p[e + 4..][t - e - 4..t - e];
    }
  }

  method StartTable(p: array<byte>, pos: nat, segnum: nat)
    requires segnum > 0 && pos + HeaderSize(segnum) <= p.Length
    modifies p
    ensures Rendered(p[..], pos, segnum, [])
  {
    hide LE32;
    var headerlen := (2 + segnum) / 2 * 2;
    StoreWord(p, pos, segnum - 1);
    ghost var first := p[pos..pos + 4];
    StoreWord(p, pos + 4 * (headerlen - 1), 0);
    assert first == p[..pos + 4 * (headerlen - 1)][pos..pos + 4];
  }

  method RenderEntry(p: array<byte>, pos: nat, segnum: nat, i: nat, ghost ns: seq<nat>, len: nat)
    requires Rendered(p[..], pos, segnum, ns) && |ns| == i < segnum
    modifies p
    ensures Rendered(p[..], pos, segnum, ns + [len])
  {
    hide LE32, Sizes;
    TableHolds(segnum, i);
    ghost var q := p[..];
    StoreWord(p, pos + 4 + 4 * i, len / 8);
    RenderedStep(q, p[..], pos, segnum, ns, len);
  }

  lemma TableHolds(segnum: nat, i: nat)
    requires i < segnum
    ensures 8 + 4 * i <= HeaderSize(segnum)
    ensures segnum % 2 == 0 ==> 12 + 4 * i <= HeaderSize(segnum)
  {
  }

  lemma ChainStep(chain: seq<ByteSegment>, i: nat)
    requires i < |chain|
    ensures ChainLens(chain[..i + 1]) == ChainLens(chain[..i]) + [chain[i].len]
    ensures Sum(ChainLens(chain[..i + 1])) == Sum(ChainLens(chain[..i])) + chain[i].len
  {
    assert chain[..i + 1][..i] == chain[..i];
    var ns := ChainLens(chain[..i]);
    assert (ns + [chain[i].len])[..i] == ns;
  }

  /** header_render: fails when the list is shorter or longer than the count. */
  method HeaderRender(c: ByteMessage, p: array<byte>, pos: nat) returns (ok: bool, datasz: nat)
    requires c.Valid() && c.segnum > 0 && pos + HeaderSize(c.segnum) <= p.Length
    modifies p
    ensures ok <==> c.segnum == |c.chain|
    ensures ok ==> p[pos..pos + HeaderSize(c.segnum)] == Header(ChainLens(c.chain))
    ensures ok ==> datasz == Sum(ChainLens(c.chain))
  {
    hide Rendered, Header, ChainLens, Sum, HeaderSize;
    NoSegments();
    StartTable(p, pos, c.segnum);
    datasz := 0;
    var i := 0;
    assert c.chain[..0] == [];
    while i < c.segnum
      invariant i <= c.segnum && i <= |c.chain|
      invariant Rendered(p[..], pos, c.segnum, ChainLens(c.chain[..i]))
      invariant datasz == Sum(ChainLens(c.chain[..i]))
    {
      if i == |c.chain| {
        return false, datasz;
      }
      ChainStep(c.chain, i);
      datasz := datasz + c.chain[i].len;
      RenderEntry(p, pos, c.segnum, i, ChainLens(c.chain[..i]), c.chain[i].len);
      i := i + 1;
    }
    if c.segnum < |c.chain| {
      return false, datasz;
    }
    assert c.chain[..i] == c.chain;
    RenderedHeader(p[..], pos, ChainLens(c.chain));
    ok := true;
  }

  lemma NoSegments()
    ensures ChainLens([]) == [] && Sum([]) == 0
  {
  }

  lemma {:induction false} LensOfContents(chain: seq<ByteSegment>)
    requires forall i | 0 <= i < |chain| :: chain[i].Valid()
    ensures ChainLens(chain) == Lens(Contents(chain))
  {
    forall i | 0 <= i < |chain| ensures ChainLens(chain)[i] == Lens(Contents(chain))[i] {
      assert Contents(chain)[i] == chain[i].Bytes();
    }
  }

  /** The segments do not share memory with the output buffer. */
  ghost predicate AwayFrom(c: ByteMessage, p: array<byte>)
    reads c
  {
    forall i | 0 <= i < |c.chain| :: c.chain[i].data != p
  }

  lemma {:induction false} ConcatPrefix(segs: seq<seq<byte>>, i: nat)
    requires i < |segs|
    ensures Concat(segs[..i + 1]) == Concat(segs[..i]) + segs[i]
    ensures |Concat(segs[..i])| + |segs[i]| <= |Concat(segs)|
  {
    assert segs[..i + 1] == segs[..i] + [segs[i]];
    ConcatSnoc(segs[..i], segs[i]);
    ConcatSplit(segs, i + 1);
  }

  lemma {:induction false} ConcatSplit(segs: seq<seq<byte>>, i: nat)
    requires i <= |segs|
    ensures Concat(segs) == Concat(segs[..i]) + Concat(segs[i..])
  {
    if i == 0 {
      assert segs[0..] == segs;
    } else {
      ConcatSplit(segs[1..], i - 1);
      assert segs[1..][..i - 1] == segs[..i][1..] && segs[1..][i - 1..] == segs[i..];
      Regroup(segs[0], Concat(segs[..i][1..]), Concat(segs[i..]));
    }
  }

  lemma Extended(p: seq<byte>, q: seq<byte>, pos: nat, at: nat, a: seq<byte>, b: seq<byte>)
    requires pos <= at <= |p| == |q| && at + |b| <= |q|
    requires p[pos..at] == a && q[..at] == p[..at] && q[at..at + |b|] == b
    ensures q[..pos] == p[..pos] && q[pos..at + |b|] == a + b
  {
    assert q[..pos] == q[..at][..pos] && p[..pos] == p[..at][..pos];
    assert q[pos..at] == q[..at][pos..] && p[pos..at] == p[..at][pos..];
  }

  /** memcpy of one segment behind what is there already. */
  method CopySegment(s: ByteSegment, p: array<byte>, pos: nat, at: nat, ghost done: seq<byte>)
    requires s.Valid() && s.data != p && pos <= at && at + s.len <= p.Length && p[pos..at] == done
    modifies p
    ensures p[..pos] == old(p[..pos])
    ensures p[pos..at + s.len] == done + old(s.Bytes()) && |old(s.Bytes())| == s.len
  {
    ghost var q := p[..];
    forall j | 0 <= j < s.len { p[at + j] := s.data[s.off + j]; }
    assert p[at..at + s.len] == s.Bytes();
    Extended(q, p[..], pos, at, done, s.Bytes());
  }

  /** The memcpy loop of capn_write_mem. */
  method CopySegments(c: ByteMessage, p: array<byte>, pos: nat)
    requires c.Valid() && AwayFrom(c, p) && pos + |Concat(Contents(c.chain))| <= p.Length
    modifies p
    ensures p[..pos] == old(p[..pos])
    ensures p[pos..pos + |Concat(old(Contents(c.chain)))|] == Concat(old(Contents(c.chain)))
  {
    hide Concat, Contents, ByteSegment.Bytes;
    ghost var segs := Contents(c.chain);
    ghost var was := p[..pos];
    var at, i := pos, 0;
    EmptyConcat(segs);
    while i < |c.chain|
      invariant i <= |c.chain| && Contents(c.chain) == segs
      invariant pos <= at <= p.Length && p[..pos] == was && p[pos..at] == Concat(segs[..i])
      invariant at == pos + |Concat(segs[..i])|
    {
      ConcatPrefix(segs, i);
      SegmentSize(c.chain[i]);
      assert c.chain[i].Bytes() == segs[i];
      CopySegment(c.chain[i], p, pos, at, Concat(segs[..i]));
      at := at + c.chain[i].len;
      i := i + 1;
    }
    assert segs[..i] == segs;
  }

  lemma SegmentSize(s: ByteSegment)
    requires s.Valid()
    ensures |s.Bytes()| == s.len
  {
  }

  lemma EmptyConcat(segs: seq<seq<byte>>)
    ensures Concat(segs[..0]) == []
  {
  }

  /** What capn_write_mem leaves in the buffer, and the size it returns; -1 for a failure. */
  ghost predicate WritesFrame(segs: seq<seq<byte>>, p: array<byte>, r: int)
    reads p
    requires segs != []
  {
    r == |Frame(segs)| <= p.Length && p[..r] == Frame(segs)
  }

  /** The plain branch of capn_write_mem, after capn_root. */
  method WritePlain(c: ByteMessage, p: array<byte>, sz: nat) returns (r: int)
    requires c.Valid() && c.segnum > 0 && AwayFrom(c, p) && sz <= p.Length
    modifies p
    ensures r >= 0 <==> c.segnum == |c.chain| && |Frame(old(Contents(c.chain)))| <= sz
    ensures r >= 0 ==> WritesFrame(old(Contents(c.chain)), p, r)
    ensures r >= -1
  {
    hide Concat, Contents, ByteSegment.Bytes, Header, Sum, ChainLens;
    ghost var segs := Contents(c.chain);
    LensOfContents(c.chain);
    FrameSize(segs);
    var headersz := 4 * ((2 + c.segnum) / 2 * 2);
    if sz < headersz {
      return -1;
    }
    var ok, datasz := HeaderRender(c, p, 0);
    if !ok {
      return -1;
    }
    if sz < headersz + datasz {
      return -1;
    }
    CopySegments(c, p, headersz);
    r := headersz + datasz;
    assert p[..r] == p[..headersz] + p[headersz..r];
  }

  lemma FrameSize(segs: seq<seq<byte>>)
    requires segs != []
    ensures |Frame(segs)| == HeaderSize(|segs|) + Sum(Lens(segs)) && |Concat(segs)| == Sum(Lens(segs))
  {
    SplitConcat(segs, []);
  }

  /** capn_deflate on one whole input, into the output that is left. */
  method PackPart(z: Stream, src: array<byte>, pos: nat, len: nat) returns (ok: bool)
    requires z.Valid() && z.raw == 0 && pos + len <= src.Length && src != z.inflateBuf
    requires src == z.outBuf ==> z.nextOut + len + 2 <= pos
    modifies z, z.outBuf
    ensures z.Valid() && z.outBuf == old(z.outBuf) && z.nextOut + z.availOut == old(z.nextOut + z.availOut)
    ensures ok <==> Words(old(src[pos..pos + len])) && |Pack(old(src[pos..pos + len]))| <= old(z.availOut)
    ensures ok ==> z.outBuf[..z.nextOut] == old(z.outBuf[..z.nextOut]) + Pack(old(src[pos..pos + len]))
    ensures ok ==> z.raw == 0
  {
    hide Pack, PackRest, View.ToEmit, View.Reach, View.Leads;
    z.inBuf, z.nextIn, z.availIn := src, pos, len;
    ghost var u := z.Now();
    ghost var out;
    var r;
    r, out := z.Deflate();
    ok := r == Done && z.availIn == 0;
    PartPacked(u, z.Now(), out, r);
  }

  lemma PartPacked(u: View, v: View, out: seq<byte>, r: Status)
    requires u.raw == 0 && (r == Misaligned <==> |u.unread| % 8 != 0)
    requires r == Misaligned ==> v == u
    requires r != Misaligned ==> u.Emits(v, out) && (r == Done <==> |u.ToEmit()| <= u.room)
    requires r == Done ==> v.unread == []
    ensures r == Done <==> Words(u.unread) && |Pack(u.unread)| <= u.room
    ensures r == Done ==> v.raw == 0 && v.written == u.written + Pack(u.unread)
    ensures |v.written| + v.room == |u.written| + u.room && v.outBuf == u.outBuf
  {
    hide Pack, PackRest, View.Reach;
    if r != Misaligned {
      FreshRest(u.unread);
      if r == Done {
        PackRestEnd(v.raw);
      }
    }
  }

  /** The segments packed behind the header, one call of capn_deflate for each. */
  method PackSegments(z: Stream, c: ByteMessage, ghost header: seq<byte>) returns (ok: bool)
    requires c.Valid() && z.Valid() && z.raw == 0 && AwayFrom(c, z.outBuf)
    requires forall i | 0 <= i < |c.chain| :: c.chain[i].data != z.inflateBuf
    requires z.outBuf[..z.nextOut] == header
    modifies z, z.outBuf
    ensures z.Valid() && z.outBuf == old(z.outBuf) && z.nextOut + z.availOut == old(z.nextOut + z.availOut)
    ensures var segs := old(Contents(c.chain));
      ok <==> WholeWords(segs) && |PackEach(segs)| <= old(z.availOut)
    ensures ok ==> z.outBuf[..z.nextOut] == header + PackEach(old(Contents(c.chain)))
  {
    hide Contents, ByteSegment.Bytes, PackEach, Pack;
    ghost var segs := Contents(c.chain);
    ghost var room := z.availOut;
    var i := 0;
    EmptyPackEach(segs);
    while i < |c.chain|
      invariant i <= |c.chain| && Contents(c.chain) == segs
      invariant z.Valid() && z.raw == 0 && z.outBuf == old(z.outBuf)
      invariant z.nextOut + z.availOut == old(z.nextOut + z.availOut)
      invariant WholeWords(segs[..i]) && z.outBuf[..z.nextOut] == header + PackEach(segs[..i])
      decreases |c.chain| - i
    {
      var s := c.chain[i];
      assert s.Bytes() == segs[i];
      PackEachPrefix(segs, i);
      Unfold(s);
      ok := PackPart(z, s.data, s.off, s.len);
      if !ok {
        return false;
      }
      i := i + 1;
    }
    assert segs[..i] == segs;
    ok := true;
  }

  lemma Unfold(s: ByteSegment)
    requires s.Valid()
    ensures s.Bytes() == s.data[s.off..s.off + s.len]
  {
  }

  lemma EmptyPackEach(segs: seq<seq<byte>>)
    ensures PackEach(segs[..0]) == []
  {
  }

  /** One more segment costs its own packing, and the whole costs at least as much as any prefix. */
  lemma PackEachPrefix(segs: seq<seq<byte>>, i: nat)
    requires i < |segs| && WholeWords(segs[..i])
    ensures Words(segs[i]) ==>
      && WholeWords(segs[..i + 1])
      && PackEach(segs[..i + 1]) == PackEach(segs[..i]) + Pack(segs[i])
    ensures WholeWords(segs) ==> Words(segs[i]) && |PackEach(segs[..i])| + |Pack(segs[i])| <= |PackEach(segs)|
  {
    hide Pack;
    if Words(segs[i]) {
      assert segs[..i + 1] == segs[..i] + [segs[i]];
      PackEachSnoc(segs[..i], segs[i]);
    }
    if WholeWords(segs) {
      PackEachSplit(segs, i + 1);
    }
  }

  lemma {:induction false} PackEachSnoc(segs: seq<seq<byte>>, s: seq<byte>)
    requires WholeWords(segs) && Words(s)
    ensures WholeWords(segs + [s]) && PackEach(segs + [s]) == PackEach(segs) + Pack(s)
  {
    hide Pack;
    if segs == [] {
      assert segs + [s] == [s];
    } else {
      PackEachSnoc(segs[1..], s);
      assert (segs + [s])[1..] == segs[1..] + [s];
      Regroup(Pack(segs[0]), PackEach(segs[1..]), Pack(s));
    }
  }

  lemma {:induction false} PackEachSplit(segs: seq<seq<byte>>, i: nat)
    requires WholeWords(segs) && i <= |segs|
    ensures PackEach(segs) == PackEach(segs[..i]) + PackEach(segs[i..])
  {
    hide Pack;
    if i == 0 {
      assert segs[0..] == segs;
    } else {
      PackEachSplit(segs[1..], i - 1);
      assert segs[1..][..i - 1] == segs[..i][1..] && segs[1..][i - 1..] == segs[i..];
      Regroup(Pack(segs[0]), PackEach(segs[..i][1..]), PackEach(segs[i..]));
    }
  }

  /** Whole words, and room both for the header's unpacked copy and for the packed message. */
  ghost predicate FitsPacked(segs: seq<seq<byte>>, sz: nat)
    requires segs != []
  {
    WholeWords(segs) && 2 * HeaderSize(|segs|) + 2 <= sz && |PackedFrame(segs)| <= sz
  }

  /**
   capn_write_mem_packed, after capn_root. The uncompressed header is rendered into the output
   buffer itself, two bytes behind the room its packing starts in, and packed from there.
   */
  method WritePacked(c: ByteMessage, p: array<byte>, sz: nat) returns (r: int)
    requires c.Valid() && c.segnum > 0 && AwayFrom(c, p) && sz <= p.Length
    modifies p
    ensures r >= 0 <==> c.segnum == |c.chain| && FitsPacked(old(Contents(c.chain)), sz)
    ensures r >= 0 ==> r == |PackedFrame(old(Contents(c.chain)))| && p[..r] == PackedFrame(old(Contents(c.chain)))
    ensures r >= -1
  {
    hide Contents, ByteSegment.Bytes, Header, ChainLens, Pack, PackEach, PackedFrame, Sum;
    ghost var segs := Contents(c.chain);
    LensOfContents(c.chain);
    PackedSize(segs);
    var headerlen := (2 + c.segnum) / 2 * 2;
    var headersz := 4 * headerlen;
    if headersz > sz || sz - headersz < 2 {
      return -1;
    }
    if headerlen > (sz - headersz - 2) / 4 {
      return -1;
    }
    var ok, datasz := HeaderRender(c, p, headersz + 2);
    if !ok {
      return -1;
    }
    r := PackInPlace(c, p, sz, headersz, Header(Lens(segs)));
  }

  /** Packs the rendered header over the front of its own buffer, and the segments behind it. */
  method PackInPlace(c: ByteMessage, p: array<byte>, sz: nat, headersz: nat, ghost header: seq<byte>) returns (r: int)
    requires c.Valid() && AwayFrom(c, p) && 2 * headersz + 2 <= sz <= p.Length
    requires |header| == headersz && Words(header) && p[headersz + 2..2 * headersz + 2] == header
    modifies p
    ensures var segs := old(Contents(c.chain));
      r >= 0 <==> WholeWords(segs) && |Pack(header)| + |PackEach(segs)| <= sz
    ensures r >= 0 ==> r <= p.Length && p[..r] == Pack(header) + PackEach(old(Contents(c.chain)))
    ensures r >= -1
  {
    hide Contents, ByteSegment.Bytes, Pack, PackEach;
    var z := new Stream(p, headersz + 2, headersz, p, 0, sz);
    var ok := PackPart(z, p, headersz + 2, headersz);
    if !ok {
      return -1;
    }
    assert p[..0] + Pack(header) == Pack(header);
    ok := PackSegments(z, c, Pack(header));
    r := if ok then sz - z.availOut else -1;
  }

  lemma PackedSize(segs: seq<seq<byte>>)
    requires segs != []
    ensures WholeWords(segs) ==> PackedFrame(segs) == Pack(Header(Lens(segs))) + PackEach(segs)
  {
  }

  ghost predicate Fits(segs: seq<seq<byte>>, sz: nat, packed: bool)
    requires segs != []
  {
    if packed then FitsPacked(segs, sz) else |Frame(segs)| <= sz
  }

  /** What capn_write_mem and capn_size ask of a message, besides room. */
  ghost predicate Complete(c: ByteMessage)
    reads c, c.chain
  {
    c.segnum > 0 && c.segnum == |c.chain| && c.chain[0].cap >= 8
  }

  /**
   capn_write_mem. It fails exactly when the segment list does not match the count, segment 0 cannot
   hold the root pointer, or there is not enough room; otherwise the buffer starts with the frame,
   plain or packed, of the segments as capn_root left them.
   */
  method WriteMem(c: ByteMessage, p: array<byte>, sz: nat, packed: bool) returns (r: int)
    requires c.Valid() && AwayFrom(c, p) && sz <= p.Length
    modifies p, c.chain
    ensures c.Valid() && r >= -1
    ensures r >= 0 <==> old(Complete(c)) && Fits(Contents(c.chain), sz, packed)
    ensures r >= 0 && !packed ==> WritesFrame(Contents(c.chain), p, r)
    ensures r >= 0 && packed ==> r == |PackedFrame(Contents(c.chain))| && p[..r] == PackedFrame(Contents(c.chain))
  {
    hide Frame, PackedFrame, Contents;
    if c.segnum == 0 {
      return -1;
    }
    var ok := c.Root();
    if !ok {
      return -1;
    }
    if packed {
      r := WritePacked(c, p, sz);
    } else {
      r := WritePlain(c, p, sz);
    }
  }

  /** The loop of capn_size, which walks the list as header_render does. */
  method CountBytes(c: ByteMessage) returns (ok: bool, datasz: nat)
    requires c.Valid() && c.segnum > 0
    ensures ok <==> c.segnum == |c.chain|
    ensures ok ==> datasz == Sum(ChainLens(c.chain))
  {
    hide ChainLens, Sum;
    NoSegments();
    assert c.chain[..0] == [];
    datasz := 0;
    var i := 0;
    while i < c.segnum
      invariant i <= c.segnum && i <= |c.chain| && datasz == Sum(ChainLens(c.chain[..i]))
    {
      if i == |c.chain| {
        return false, datasz;
      }
      ChainStep(c.chain, i);
      datasz := datasz + c.chain[i].len;
      i := i + 1;
    }
    if c.segnum < |c.chain| {
      return false, datasz;
    }
    assert c.chain[..i] == c.chain;
    ok := true;
  }

  /** capn_size: the size of the plain frame. */
  method Size(c: ByteMessage) returns (r: int)
    requires c.Valid()
    modifies c.chain
    ensures c.Valid() && (r >= 0 <==> old(Complete(c))) && r >= -1
    ensures r >= 0 ==> r == |Frame(Contents(c.chain))|
  {
    hide Frame, Contents, ChainLens, Sum;
    if c.segnum == 0 {
      return -1;
    }
    var ok := c.Root();
    if !ok {
      return -1;
    }
    var datasz;
    ok, datasz := CountBytes(c);
    LensOfContents(c.chain);
    FrameSize(Contents(c.chain));
    r := if ok then 8 * ((2 + c.segnum) / 2) + datasz else -1;
  }

  // ---- reading ----------------------------------------------------------------------------

  datatype Outcome = Loaded | Failed | Overran

  /** The loop over the size entries: byte sizes, or nothing when one of them is out of range. */
  method ReadSizes(hdr: array<byte>, segnum: nat, ghost u: seq<byte>) returns (ok: bool, ns: seq<nat>, total: nat)
    requires 1 <= segnum < MAX_SEGS && hdr.Length == 4 * MAX_SEGS && 4 + TableSize(segnum) <= |u|
    requires u[4..4 + TableSize(segnum)] == hdr[..TableSize(segnum)]
    ensures 4 * segnum <= TableSize(segnum)
    ensures ReadTable(u, segnum) == if ok then Accepted(ns) else Rejected
    ensures ok ==> total == Sum(ns)
  {
    hide FromLE32, Sum, TableSize;
    TableEntries(segnum);
    TableFitsBuffer(segnum);
    SumNone();
    ns, total := [], 0;
    for i := 0 to segnum
      invariant ReadTable(u, i) == Accepted(ns) && total == Sum(ns) && |ns| == i
    {
      var n := FromLE32(hdr[4 * i..4 * i + 4]);
      Shifted(u, hdr[..TableSize(segnum)], 4 * i);
      assert hdr[..TableSize(segnum)][4 * i..4 * i + 4] == hdr[4 * i..4 * i + 4];
      assert 4 * (i + 1) == 4 * i + 4;
      if n > MAX_WORDS || UINT32_MAX - total < n * 8 {
        TableRejects(u, i + 1, segnum);
        return false, ns, total;
      }
      SumSnoc(ns, n * 8);
      ns, total := ns + [n * 8], total + n * 8;
    }
    ok := true;
  }

  lemma Shifted(u: seq<byte>, h: seq<byte>, at: nat)
    requires 4 + |h| <= |u| && u[4..4 + |h|] == h && at + 4 <= |h|
    ensures u[at + 4..at + 8] == h[at..at + 4]
  {
    var x, y := u[at + 4..at + 8], h[at..at + 4];
    forall j | 0 <= j < 4 ensures x[j] == y[j] {
      assert u[4..4 + |h|][at + j] == h[at + j];
    }
  }

  lemma SumNone()
    ensures Sum([]) == 0
  {
  }

  lemma SumSnoc(ns: seq<nat>, n: nat)
    ensures Sum(ns + [n]) == Sum(ns) + n
  {
    assert (ns + [n])[..|ns|] == ns;
  }

  lemma {:induction false} TableRejects(u: seq<byte>, i: nat, n: nat)
    requires i <= n && 4 + 4 * n <= |u| && ReadTable(u, i).Rejected?
    ensures ReadTable(u, n).Rejected?
    decreases n
  {
    hide Word, Sum;
    if i < n {
      TableRejects(u, i, n - 1);
    }
  }

  method AddSegment(c: ByteMessage, data: array<byte>, at: nat, len: nat) returns (s: ByteSegment)
    requires c.Valid() && c.segnum == |c.chain| && at + len <= data.Length
    modifies c
    ensures c.Valid() && c.segnum == |c.chain| && fresh(s) && c.chain == old(c.chain) + [s]
    ensures s.data == data && s.cap == len && s.id == old(c.segnum)
    ensures Contents(c.chain) == old(Contents(c.chain)) + [data[at..at + len]]
  {
    hide Contents, ByteSegment.Bytes;
    s := new ByteSegment(data, at, len, len, 0);
    c.Append(s);
    Unfold(s);
    ContentsSnoc(old(c.chain), s);
  }

  lemma ContentsSnoc(chain: seq<ByteSegment>, s: ByteSegment)
    requires s.Valid() && forall i | 0 <= i < |chain| :: chain[i].Valid()
    ensures Contents(chain + [s]) == Contents(chain) + [s.Bytes()]
  {
    assert (chain + [s])[..|chain|] == chain;
  }

  /** The loop that sets up one segment after another over the block that was read. */
  method BuildSegments(c: ByteMessage, data: array<byte>, ns: seq<nat>)
    requires c.chain == [] && c.segnum == 0 && Sum(ns) == data.Length
    modifies c
    ensures c.Valid() && c.segnum == |c.chain| == |ns| && fresh(c.chain)
    ensures Contents(c.chain) == Split(data[..], ns)
    ensures forall i | 0 <= i < |c.chain| :: c.chain[i].id == i && c.chain[i].data == data && c.chain[i].cap == ns[i]
  {
    hide Contents, Split, Sum;
    NothingSplit(data[..]);
    var at := 0;
    for i := 0 to |ns|
      invariant c.Valid() && c.segnum == |c.chain| == i && fresh(c.chain)
      invariant at == Sum(ns[..i]) <= data.Length
      invariant Contents(c.chain) == Split(data[..], ns[..i])
      invariant forall j | 0 <= j < i :: c.chain[j].id == j && c.chain[j].data == data && c.chain[j].cap == ns[j]
    {
      SplitStep(data[..], ns, i);
      var _ := AddSegment(c, data, at, ns[i]);
      at := at + ns[i];
    }
    assert ns[..|ns|] == ns;
  }

  lemma NothingSplit(b: seq<byte>)
    ensures Sum([]) == 0 && Split(b, []) == Contents([])
  {
  }

  lemma SplitStep(b: seq<byte>, ns: seq<nat>, i: nat)
    requires i < |ns| && Sum(ns) == |b|
    ensures Sum(ns[..i]) <= Sum(ns[..i + 1]) == Sum(ns[..i]) + ns[i] <= |b|
    ensures Split(b, ns[..i + 1]) == Split(b, ns[..i]) + [b[Sum(ns[..i])..Sum(ns[..i + 1])]]
  {
    SumPrefix(ns, i + 1);
    assert ns[..i + 1][..i] == ns[..i];
  }

  /** One read into a buffer of its own. */
  method ReadBlock(z: Stream, src: Source?, packed: bool, n: nat, size: nat, zbuf: array<byte>)
    returns (ok: bool, block: array<byte>)
    requires z.Valid() && zbuf.Length == 4096 && zbuf != z.inflateBuf && n <= size
    modifies z, zbuf, z.inflateBuf, src
    ensures z.Valid() && fresh(block) && block.Length == size && (z.inBuf == old(z.inBuf) || z.inBuf == zbuf)
    ensures ok <==> |old(Deliverable(z, src, packed))| >= n && !Refuses(src, packed, n)
    ensures ok ==> old(Deliverable(z, src, packed)) == block[..n] + Deliverable(z, src, packed)
  {
    hide Deliverable;
    block := new byte[size](_ => 0);
    ok := ReadFp(z, src, packed, block, 0, n, zbuf);
    assert block[0..n] == block[..n];
  }

  /** How the reader's first read decides. */
  lemma ParseCount(u: seq<byte>, first: seq<byte>, rest: seq<byte>)
    requires |first| == 4
    ensures |u| < 4 ==> Parse(u) == Bad
    ensures u == first + rest && FromLE32(first) > MAX_SEGS - 1 ==> Parse(u) == Bad
    ensures u == first + rest && FromLE32(first) == MAX_SEGS - 1 ==> Parse(u) == Overrun
    ensures u == first + rest && FromLE32(first) < MAX_SEGS - 1 && |rest| < TableSize(FromLE32(first) + 1) ==>
      Parse(u) == Bad
  {
    hide FromLE32, ReadTable, TableSize;
    if u == first + rest {
      assert u[0..4] == first;
    }
  }

  /** How the other two cut the input. */
  lemma ParseCut(u: seq<byte>, first: seq<byte>, table: seq<byte>, body: seq<byte>)
    requires |first| == 4 && u == first + (table + body)
    ensures u[0..4] == first && u[4..4 + |table|] == table && u[4 + |table|..] == body
  {
  }

  predicate PlainFile(src: Source?, packed: bool) { src != null && src.file && !packed }

  /** What the outcome of reading says about the input. */
  ghost predicate Matches(parsed: Parsed, r: Outcome, c: ByteMessage)
    reads c, c.chain, set s | s in c.chain :: s.data
  {
    c.Valid() &&
    match parsed
    case Bad => r == Failed
    case Overrun => r == Overran
    case Message(segs) => r == Loaded && Contents(c.chain) == segs && c.segnum == |segs|
  }

  /**
   init_fp: what it makes of its input, packed or plain, from memory, a FILE or a descriptor, is what Parse
   says about the bytes that can be delivered, unless they are a plain FILE of empty segments.
   */
  method InitFp(z: Stream, src: Source?, packed: bool) returns (r: Outcome, c: ByteMessage)
    requires z.Valid()
    modifies z, z.inflateBuf, src
    ensures fresh(c) && fresh(c.chain)
    ensures Matches(Received(Parse(old(Deliverable(z, src, packed))), PlainFile(src, packed)), r, c)
    ensures r == Loaded ==> forall i | 0 <= i < |c.chain| :: c.chain[i].id == i
  {
    hide Parse, Deliverable, FromLE32, TableSize, ParseBody;
    ghost var u := Deliverable(z, src, packed);
    c := new ByteMessage();
    var zbuf := new byte[4096];
    var ok, first := ReadBlock(z, src, packed, 4, 4, zbuf);
    ParseCount(u, first[..4], Deliverable(z, src, packed));
    if !ok {
      return Failed, c;
    }
    var segnum := FromLE32(first[..4]);
    if segnum > MAX_SEGS - 1 {
      return Failed, c;
    }
    segnum := segnum + 1;
    if segnum == MAX_SEGS {
      // the table is longer than hdr: what reading it does is not defined
      return Overran, c;
    }
    r := InitSegments(z, src, packed, segnum, zbuf, c, u, first[..4]);
  }

  /** The size table, the block of data and the segments over it. */
  method InitSegments(z: Stream, src: Source?, packed: bool, segnum: nat, zbuf: array<byte>, c: ByteMessage,
                      ghost u: seq<byte>, ghost first: seq<byte>)
    returns (r: Outcome)
    requires z.Valid() && zbuf.Length == 4096 && zbuf != z.inflateBuf
    requires c.chain == [] && c.segnum == 0 && |first| == 4 && FromLE32(first) + 1 == segnum < MAX_SEGS
    requires u == first + Deliverable(z, src, packed)
    modifies z, zbuf, z.inflateBuf, src, c
    ensures fresh(c.chain) && Matches(Received(Parse(u), PlainFile(src, packed)), r, c)
    ensures r == Loaded ==> forall i | 0 <= i < |c.chain| :: c.chain[i].id == i
  {
    hide Parse, ParseBody, Deliverable, FromLE32, TableSize, ReadTable, Sum, Split, Contents;
    TableFitsBuffer(segnum);
    TableLength(segnum);
    ParseCount(u, first, Deliverable(z, src, packed));
    r := Failed;
    var ok, hdr := ReadBlock(z, src, packed, 8 * (segnum / 2) + 4, 4 * MAX_SEGS, zbuf);
    if !ok {
      return;
    }
    ParseCut(u, first, hdr[..TableSize(segnum)], Deliverable(z, src, packed));
    ParseLong(u, segnum);
    r := InitTable(z, src, packed, segnum, hdr, zbuf, c, u);
  }

  method InitTable(z: Stream, src: Source?, packed: bool, segnum: nat, hdr: array<byte>, zbuf: array<byte>,
      c: ByteMessage,
                   ghost u: seq<byte>)
    returns (r: Outcome)
    requires z.Valid() && zbuf.Length == 4096 && zbuf != z.inflateBuf && c.chain == [] && c.segnum == 0
    requires 1 <= segnum < MAX_SEGS && hdr.Length == 4 * MAX_SEGS && 4 + 4 * segnum <= 4 + TableSize(segnum) <= |u|
    requires u[4..4 + TableSize(segnum)] == hdr[..TableSize(segnum)]
    modifies z, zbuf, z.inflateBuf, src, c
    ensures fresh(c.chain) && Matches(Received(ParseBody(ReadTable(u, segnum), old(Deliverable(z, src, packed))),
      PlainFile(src, packed)), r, c)
    ensures r == Loaded ==> forall i | 0 <= i < |c.chain| :: c.chain[i].id == i
  {
    hide Deliverable, TableSize, ReadTable, Sum, Split, Contents;
    var ok, ns, total := ReadSizes(hdr, segnum, u);
    if !ok {
      return Failed;
    }
    r := InitData(z, src, packed, ns, total, zbuf, c);
  }

  lemma TableLength(segnum: nat)
    ensures TableSize(segnum) == 8 * (segnum / 2) + 4
  {
  }

  /** Reads the data of all segments into one block. */
  method InitData(z: Stream, src: Source?, packed: bool, ns: seq<nat>, total: nat, zbuf: array<byte>, c: ByteMessage)
    returns (r: Outcome)
    requires z.Valid() && zbuf.Length == 4096 && zbuf != z.inflateBuf
    requires c.chain == [] && c.segnum == 0 && total == Sum(ns)
    modifies z, zbuf, z.inflateBuf, src, c
    ensures fresh(c.chain) && Matches(Received(ParseBody(Accepted(ns), old(Deliverable(z, src, packed))),
      PlainFile(src, packed)), r, c)
    ensures r == Loaded ==> forall i | 0 <= i < |c.chain| :: c.chain[i].id == i
  {
    hide Deliverable, Sum, Split, Contents;
    ghost var body := Deliverable(z, src, packed);
    if |body| >= Sum(ns) {
      SplitLens(body, ns);
    }
    var ok, data := ReadBlock(z, src, packed, total, total, zbuf);
    if !ok {
      return Failed;
    }
    BuildSegments(c, data, ns);
    assert data[..total] == data[..];
    SplitAgree(body, data[..], ns);
    r := Loaded;
  }

  lemma {:induction false} SplitAgree(body: seq<byte>, block: seq<byte>, ns: seq<nat>)
    requires Sum(ns) <= |block| <= |body| && body[..|block|] == block
    ensures Split(body, ns) == Split(block, ns)
  {
    if ns != [] {
      var m := |ns| - 1;
      SplitAgree(body, block, ns[..m]);
      assert body[Sum(ns[..m])..Sum(ns)] == block[Sum(ns[..m])..Sum(ns)] by {
        assert body[..|block|][Sum(ns[..m])..Sum(ns)] == body[Sum(ns[..m])..Sum(ns)];
      }
    }
  }

  /** capn_init_mem. */
  method InitMem(p: array<byte>, sz: nat, packed: bool) returns (r: Outcome, c: ByteMessage)
    requires sz <= p.Length
    ensures fresh(c) && fresh(c.chain)
    ensures Matches(Parse(Content(p[..sz], packed)), r, c)
    ensures r == Loaded ==> forall i | 0 <= i < |c.chain| :: c.chain[i].id == i
  {
    hide Parse;
    var nowhere := new byte[0];
    var z := new Stream(p, 0, sz, nowhere, 0, 0);
    FreshDelivers(z, packed);
    assert p[0..sz] == p[..sz];
    r, c := InitFp(z, null, packed);
  }

  /**
   A message that is written and read back, plain or packed, comes back with the same segments, exactly when
   these are within the reader's limits.
   */
  method Reread(c: ByteMessage, p: array<byte>, sz: nat, packed: bool) returns (r: int, o: Outcome, c': ByteMessage)
    requires c.Valid() && AwayFrom(c, p) && sz <= p.Length
    modifies p, c.chain
    ensures c.Valid() && (r >= 0 <==> old(Complete(c)) && Fits(Contents(c.chain), sz, packed)) && fresh(c'.chain)
    ensures r >= 0 && FitsReader(Contents(c.chain)) ==>
      o == Loaded && c'.Valid() && Contents(c'.chain) == Contents(c.chain) && c'.segnum == c.segnum
    ensures r >= 0 && !FitsReader(Contents(c.chain)) ==>
      !(o == Loaded && c'.Valid() && Contents(c'.chain) == Contents(c.chain))
  {
    hide Contents, Parse, Frame, PackedFrame, FitsReader;
    r := WriteMem(c, p, sz, packed);
    if r < 0 {
      o := Failed;
      c' := new ByteMessage();
      return;
    }
    o, c' := InitMem(p, r, packed);
    ReadsBack(Contents(c.chain), p[..r], packed);
  }

  lemma ReadsBack(segs: seq<seq<byte>>, b: seq<byte>, packed: bool)
    requires segs != [] && (if packed then WholeWords(segs) && b == PackedFrame(segs) else b == Frame(segs))
    ensures Parse(Content(b, packed)) == Message(segs) <==> FitsReader(segs)
  {
    hide Parse, Frame, PackedFrame, FitsReader;
    assert b + [] == b;
    if packed {
      PackedFramingRoundTrip(segs, []);
    } else {
      FramingRoundTrip(segs, []);
    }
  }

  lemma FreshDelivers(z: Stream, packed: bool)
    requires z.Valid() && z.raw == 0 && z.zeros == 0 && z.availBuf == 0
    ensures Deliverable(z, null, packed) == Content(z.inBuf[z.nextIn..z.nextIn + z.availIn], packed)
  {
    hide Unpack;
    var b := z.inBuf[z.nextIn..z.nextIn + z.availIn];
    assert b + [] == b && b[0..] == b;
  }
}
