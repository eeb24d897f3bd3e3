/**
 The two loops of capn-malloc.c that drive the codec over small buffers: packed_emit_seg, which
 sends a segment through an output buffer, and read_fp, which refills an input buffer.
 */
module PackedIO {
  import opened Bytes
  import opened Packing
  import opened PackStream

  /** The destination of an emit callback that does not fail. */
  class Sink {
    var sent: seq<byte>

    constructor ()
      ensures sent == []
    {
      sent := [];
    }

    method Emit(bytes: seq<byte>)
      modifies this
      ensures sent == old(sent) + bytes
    {
      sent := sent + bytes;
    }
  }

  // ---- packed_emit_seg --------------------------------------------------------------------

  /**
   No output buffer of `cap` bytes ends inside a raw word: the test is made on the input before
   anything is emitted, one buffer at a time.
   */
  ghost predicate Unsplit(raw: nat, ws: seq<byte>, cap: nat)
    requires (|ws| as int - raw) % 8 == 0
    decreases |ws|
  {
    Words(ws) && (ws == [] || |PackRest(raw, ws)| <= cap || Resumes(raw, ws, cap))
  }

  ghost predicate Resumes(raw: nat, ws: seq<byte>, cap: nat)
    requires (|ws| as int - raw) % 8 == 0
    decreases |ws|, 0
  {
    var f := Fill(raw, ws, cap);
    f.used > 0 && Unsplit(f.raw, ws[f.used..], cap)
  }

  /** Output comes with input: a buffer that receives nothing consumes nothing. */
  lemma FillMoves(raw: nat, ws: seq<byte>, room: nat)
    requires (|ws| as int - raw) % 8 == 0
    ensures var f := Fill(raw, ws, room); f.out == 0 <==> f.used == 0
  {
  }

  /** A buffer of ten bytes always takes something. */
  lemma FillProgress(raw: nat, ws: seq<byte>, room: nat)
    requires Words(ws) && raw % 8 == 0 && ws != [] && room >= 10
    ensures Fill(raw, ws, room).out > 0
  {
    hide TokenWords, Token;
    if raw == 0 {
      FillMoves(SpanSize(ws), ws[HeadUsed(ws)..], room - HeadSize(ws));
    }
  }

  /** Every buffer that is sent full ends on a word of the input; nothing is said about progress. */
  ghost predicate WholeEnds(raw: nat, ws: seq<byte>, cap: nat)
    requires (|ws| as int - raw) % 8 == 0
    decreases |ws|
  {
    Words(ws) && (ws == [] || |PackRest(raw, ws)| <= cap || WholeEndsAfter(raw, ws, cap))
  }

  ghost predicate WholeEndsAfter(raw: nat, ws: seq<byte>, cap: nat)
    requires (|ws| as int - raw) % 8 == 0
    decreases |ws|, 0
  {
    var f := Fill(raw, ws, cap);
    f.used > 0 ==> WholeEnds(f.raw, ws[f.used..], cap)
  }

  /** With ten bytes or more there is always progress: an end inside a word is all that can go wrong. */
  lemma {:induction false} OnlySplitsFail(raw: nat, ws: seq<byte>, cap: nat)
    requires (|ws| as int - raw) % 8 == 0 && cap >= 10
    ensures Unsplit(raw, ws, cap) <==> WholeEnds(raw, ws, cap)
    decreases |ws|
  {
    hide PackRest, Fill;
    if Words(ws) && ws != [] {
      var f := Fill(raw, ws, cap);
      FillProgress(raw, ws, cap);
      FillMoves(raw, ws, cap);
      OnlySplitsFail(f.raw, ws[f.used..], cap);
    }
  }

  /** What one full buffer does to the raw span and the input: `out` is sent, (raw', ws') is what is left. */
  ghost predicate Chunk(raw: nat, ws: seq<byte>, cap: nat, out: seq<byte>, raw': nat, ws': seq<byte>, r: Status) {
    && (|ws| as int - raw) % 8 == 0 && (|ws'| as int - raw') % 8 == 0
    && |ws'| <= |ws| && ws' == ws[|ws| - |ws'|..]
    && PackRest(raw, ws) == out + PackRest(raw', ws')
    && Fill(raw, ws, cap) == Filled(|out|, |ws| - |ws'|, raw')
    && (r == Done <==> |PackRest(raw, ws)| <= cap)
    && (r == Done ==> ws' == [])
  }

  lemma ChunkFromView(u: View, v: View, out: seq<byte>, r: Status)
    requires u.Emits(v, out)
    requires u.Reach() == Filled(|out|, |u.unread| - |v.unread|, v.raw)
    requires r == Done <==> |u.ToEmit()| <= u.room
    requires r == Done ==> v.unread == []
    ensures Chunk(u.raw, u.unread, u.room, out, v.raw, v.unread, r)
    ensures u.written == [] ==> v.written == out && |out| == u.room - v.room
  {
    hide PackRest, Fill;
  }

  /** How a chunk bears on the rest of the run. */
  lemma ChunkStep(raw: nat, ws: seq<byte>, cap: nat, out: seq<byte>, raw': nat, ws': seq<byte>, r: Status)
    requires Chunk(raw, ws, cap, out, raw', ws', r) && Words(ws) && ws != []
    ensures |ws'| <= |ws| && (out == [] <==> |ws'| == |ws|)
    ensures (|ws'| as int - raw') % 8 == 0 && PackRest(raw, ws) == out + PackRest(raw', ws')
    ensures r == Done ==> Unsplit(raw, ws, cap) && PackRest(raw', ws') == [] && out != []
    ensures r != Done ==> (Unsplit(raw, ws, cap) <==> out != [] && Unsplit(raw', ws', cap))
  {
    hide PackRest, Fill;
    FillMoves(raw, ws, cap);
    if r == Done {
      PackRestEnd(raw');
    }
  }

  lemma RunEnds(raw: nat, ws: seq<byte>, cap: nat)
    requires (|ws| as int - raw) % 8 == 0
    ensures !Words(ws) ==> !Unsplit(raw, ws, cap)
    ensures ws == [] ==> Unsplit(raw, ws, cap) && PackRest(raw, ws) == []
  {
  }

  /** One turn of the loop of packed_emit_seg: fill the buffer and send it. */
  method EmitChunk(z: Stream, buf: array<byte>, sink: Sink) returns (r: Status, n: nat, ghost out: seq<byte>)
    requires z.Valid() && z.inBuf != buf && z.outBuf == buf && z.inflateBuf != buf
    requires z.availIn % 8 == 0 ==> z.raw % 8 == 0
    modifies z, buf, sink
    ensures z.Valid() && z.inBuf == old(z.inBuf) && z.outBuf == buf
    ensures sink.sent == old(sink.sent) + out && n == |out|
    ensures r == Misaligned <==> old(z.availIn) % 8 != 0
    ensures r == Misaligned ==> out == [] && z.Now().unread == old(z.Now()).unread
    ensures r != Misaligned ==>
      Chunk(old(z.raw), old(z.Now()).unread, buf.Length, out, z.raw, z.Now().unread, r)
  {
    hide Chunk, View.Emits, View.ToEmit, View.Reach;
    z.nextOut, z.availOut := 0, buf.Length;
    ghost var u := z.Now();
    r, out := z.Deflate();
    n := buf.Length - z.availOut;
    if r == Misaligned {
      out := [];
    } else {
      ChunkFromView(u, z.Now(), out, r);
    }
    assert buf[..n] == out;
    sink.Emit(buf[..n]);
  }

  /**
   packed_emit_seg succeeds exactly when the segment is a whole number of words and no buffer ends
   inside a raw word, and then what it sent is the one-shot packing. Otherwise it stops after a
   prefix of it.
   */
  method PackedEmitSeg(src: array<byte>, len: nat, buf: array<byte>, sink: Sink) returns (ok: bool)
    requires len <= src.Length && src != buf
    modifies buf, sink
    ensures len % 8 == 0 ==> (ok <==> Unsplit(0, old(src[..len]), buf.Length))
    ensures len % 8 == 0 && buf.Length >= 10 ==> (ok <==> WholeEnds(0, old(src[..len]), buf.Length))
    ensures len % 8 != 0 ==> !ok && sink.sent == old(sink.sent)
    ensures ok ==> sink.sent == old(sink.sent) + Pack(old(src[..len]))
    ensures !ok && len % 8 == 0 ==> old(sink.sent) <= sink.sent <= old(sink.sent) + Pack(old(src[..len]))
  {
    hide Unsplit, WholeEnds, Pack, PackRest, Fill, Chunk, View.Leads, Stream.Now, Sending;
    ghost var ws, was, cap := src[..len], sink.sent, buf.Length;
    var z := new Stream(src, 0, len, buf, 0, buf.Length);
    FreshStream(z, ws);
    if len % 8 == 0 {
      SendingStarts(ws, was, cap);
    }
    while z.availIn > 0
      invariant z.Valid() && z.inBuf == src && z.outBuf == buf && fresh(z) && fresh(z.inflateBuf)
      invariant z.availIn % 8 == 0 ==> z.raw % 8 == 0
      invariant len % 8 != 0 ==> z.availIn == len && sink.sent == was
      invariant len % 8 == 0 ==> Sending(z.raw, z.Now().unread, was, sink.sent, ws, cap)
      decreases z.availIn
    {
      ghost var u, sent := z.Now(), sink.sent;
      var r, n;
      ghost var out;
      r, n, out := EmitChunk(z, buf, sink);
      if r == Misaligned {
        if len % 8 == 0 {
          SendingStuck(u.raw, u.unread, was, sent, ws, cap);
        }
        return false;
      }
      SendingStep(u.raw, u.unread, was, sent, ws, cap, out, z.raw, z.Now().unread, r);
      if n == 0 {
        return false;
      }
      if r == Done {
        return true;
      }
    }
    if len % 8 == 0 {
      SendingEnds(z.raw, z.Now().unread, was, sink.sent, ws, cap);
    }
    return true;
  }

  /** In the middle of sending ws: what has been sent and what is still owed, and what success depends on. */
  ghost predicate Sending(raw: nat, unread: seq<byte>, was: seq<byte>, sent: seq<byte>, ws: seq<byte>, cap: nat)
    requires Words(ws)
    ensures Sending(raw, unread, was, sent, ws, cap) ==> (|unread| as int - raw) % 8 == 0
  {
    && (|unread| as int - raw) % 8 == 0 && was <= sent
    && sent + PackRest(raw, unread) == was + Pack(ws)
    && (Unsplit(0, ws, cap) <==> Unsplit(raw, unread, cap))
  }

  lemma SendingStarts(ws: seq<byte>, was: seq<byte>, cap: nat)
    requires Words(ws)
    ensures Sending(0, ws, was, was, ws, cap)
    ensures cap >= 10 ==> (Unsplit(0, ws, cap) <==> WholeEnds(0, ws, cap))
  {
    hide Unsplit, WholeEnds, Pack, PackRest;
    FreshRest(ws);
    if cap >= 10 {
      OnlySplitsFail(0, ws, cap);
    }
  }

  /** The test on the input stops the loop. */
  lemma SendingStuck(raw: nat, unread: seq<byte>, was: seq<byte>, sent: seq<byte>, ws: seq<byte>, cap: nat)
    requires Words(ws) && Sending(raw, unread, was, sent, ws, cap) && !Words(unread)
    ensures !Unsplit(0, ws, cap) && was <= sent <= was + Pack(ws)
  {
    hide Unsplit, Pack, PackRest;
    RunEnds(raw, unread, cap);
  }

  /** How a turn of the loop bears on the whole. */
  lemma SendingStep(raw: nat, unread: seq<byte>, was: seq<byte>, sent: seq<byte>, ws: seq<byte>, cap: nat,
                    out: seq<byte>, raw': nat, unread': seq<byte>, r: Status)
    requires Words(ws) && Sending(raw, unread, was, sent, ws, cap) && Words(unread) && unread != []
    requires Chunk(raw, unread, cap, out, raw', unread', r)
    ensures was <= sent + out <= was + Pack(ws)
    ensures out == [] ==> !Unsplit(0, ws, cap)
    ensures out != [] && r == Done ==> Unsplit(0, ws, cap) && sent + out == was + Pack(ws)
    ensures out != [] && r != Done ==> |unread'| < |unread| && Sending(raw', unread', was, sent + out, ws, cap)
  {
    hide Unsplit, Pack, PackRest, Fill, Chunk;
    ChunkStep(raw, unread, cap, out, raw', unread', r);
    Regroup(sent, out, PackRest(raw', unread'));
  }

  lemma SendingEnds(raw: nat, unread: seq<byte>, was: seq<byte>, sent: seq<byte>, ws: seq<byte>, cap: nat)
    requires Words(ws) && unread == [] && Sending(raw, unread, was, sent, ws, cap)
    ensures Unsplit(0, ws, cap) && sent == was + Pack(ws)
  {
    hide Pack, Unsplit, PackRest;
    RunEnds(raw, unread, cap);
  }

  lemma FreshStream(z: Stream, ws: seq<byte>)
    requires z.Valid() && z.inBuf[z.nextIn..z.nextIn + z.availIn] == ws && z.raw == 0
    ensures z.Now().unread == ws
    ensures Words(ws) ==> z.Now().Synced() && PackRest(0, ws) == Pack(ws)
  {
    hide PackRest, Pack;
    if Words(ws) {
      FreshRest(ws);
    }
  }

  /**
   The condition can fail: a segment of 512 words without a zero byte packs to 4100 bytes, and a
   buffer of 4096 bytes, the size the writers use, ends inside its last raw word.
   */
  lemma DenseSegmentSplits(ws: seq<byte>)
    requires |ws| == 4096 && forall i | 0 <= i < |ws| :: ws[i] != 0
    ensures |Pack(ws)| == 4100
    ensures !Unsplit(0, ws, 4096)
  {
    hide Fill, Pack, PackRest, Unsplit, Resumes;
    DensePack(ws);
    DenseFill(ws, 4096);
    DenseFill(ws[2048..], 2046);
    Resumption(0, ws, 4096);
    RunEnds(4, ws[4092..], 4096);
  }

  /** A span of 256 dense words either fits the room or ends in the middle of it. */
  lemma DenseFill(ws: seq<byte>, room: nat)
    requires Words(ws) && |ws| >= 2048 && room > 10 && forall i | 0 <= i < |ws| :: ws[i] != 0
    ensures Fill(0, ws, room) ==
      if room >= 2050 then Fill(0, ws[2048..], room - 2050).Plus(2050, 2048)
      else Filled(room, room - 2, 2050 - room)
  {
    hide Token, TokenWords, HeadSize, HeadUsed, SpanSize, Fill;
    var tail := ws[8..];
    DenseToken(ws);
    FillHead(ws, room);
    FillCopy(2040, tail, room - 10);
    if room >= 2050 {
      assert tail[2040..] == ws[2048..];
    } else {
      FillFull(2050 - room, tail[room - 10..]);
    }
  }

  lemma Resumption(raw: nat, ws: seq<byte>, cap: nat)
    requires (|ws| as int - raw) % 8 == 0 && Words(ws) && ws != [] && |PackRest(raw, ws)| > cap
    ensures var f := Fill(raw, ws, cap);
      Unsplit(raw, ws, cap) <==> f.used > 0 && Unsplit(f.raw, ws[f.used..], cap)
  {
    hide PackRest, Fill;
  }

  lemma DensePack(ws: seq<byte>)
    requires |ws| == 4096 && forall i | 0 <= i < |ws| :: ws[i] != 0
    ensures |Pack(ws)| == 4100 && PackRest(0, ws) == Pack(ws)
  {
    var second := ws[2048..];
    DenseToken(ws);
    DenseToken(second);
    FreshRest(ws);
    hide Token, TokenWords, PackRest;
    assert second[2048..] == [];
    assert Pack(second) == Token(second) + Pack(second[2048..]);
    assert Pack(ws) == Token(ws) + Pack(ws[2048..]);
  }

  lemma FillHead(ws: seq<byte>, room: nat)
    requires Words(ws) && ws != [] && room >= HeadSize(ws)
    ensures Fill(0, ws, room) ==
      Fill(SpanSize(ws), ws[HeadUsed(ws)..], room - HeadSize(ws)).Plus(HeadSize(ws), HeadUsed(ws))
  {
    hide HeadSize, HeadUsed, SpanSize;
  }

  lemma FillCopy(raw: nat, ws: seq<byte>, room: nat)
    requires (|ws| as int - raw) % 8 == 0 && ws != [] && raw > 0 && room > 0
    ensures var sz := Least(raw, Least(|ws|, room));
      Fill(raw, ws, room) == Fill(raw - sz, ws[sz..], room - sz).Plus(sz, sz)
  {
  }

  lemma FillFull(raw: nat, ws: seq<byte>)
    requires (|ws| as int - raw) % 8 == 0
    ensures Fill(raw, ws, 0) == Filled(0, 0, raw)
  {
  }

  lemma FreshRest(ws: seq<byte>)
    requires Words(ws)
    ensures PackRest(0, ws) == Pack(ws)
  {
    PackRestSplit(0, ws);
    assert ws[0..] == ws;
  }

  lemma DenseToken(ws: seq<byte>)
    requires Words(ws) && |ws| >= 2048 && forall i | 0 <= i < |ws| :: ws[i] != 0
    ensures TokenWords(ws) == 256 && |Token(ws)| == 2050
    ensures HeadUsed(ws) == 8 && SpanSize(ws) == 2040 && HeadSize(ws) == 10
  {
    AllNonZero(ws[..8]);
    AllDense(ws[8..], 255);
  }

  lemma {:induction false} AllNonZero(w: seq<byte>)
    requires forall i | 0 <= i < |w| :: w[i] != 0
    ensures NonZeros(w) == |w|
  {
    if w != [] {
      AllNonZero(w[1..]);
    }
  }

  lemma {:induction false} AllDense(ws: seq<byte>, limit: nat)
    requires Words(ws) && |ws| >= 8 * limit && forall i | 0 <= i < |ws| :: ws[i] != 0
    ensures DenseRun(ws, limit) == limit
  {
    if limit > 0 {
      AllNonZero(ws[..8]);
      AllDense(ws[8..], limit - 1);
    }
  }

  // ---- read_fp ----------------------------------------------------------------------------

  /** A FILE or a descriptor: a read takes at least one byte unless nothing is left. */
  class Source {
    var remaining: seq<byte>
    const file: bool

    constructor (data: seq<byte>, file: bool)
      ensures remaining == data && this.file == file
    {
      remaining, this.file := data, file;
    }

    method Read(n: nat) returns (chunk: seq<byte>)
      requires n > 0
      modifies this
      ensures |chunk| <= n && old(remaining) == chunk + remaining
      ensures chunk == [] ==> old(remaining) == []
    {
      if remaining == [] {
        return [];
      }
      var r :| 1 <= r <= n && r <= |remaining|;
      chunk, remaining := remaining[..r], remaining[r..];
    }
  }

  /** fread of an item of no bytes counts no item, which the plain read of a FILE takes for a failure. */
  predicate Refuses(src: Source?, packed: bool, sz: nat) { src != null && src.file && !packed && sz == 0 }

  /** Moves the unread input to the front of zbuf and reads more behind it. */
  method Refill(z: Stream, zbuf: array<byte>, src: Source) returns (chunk: seq<byte>)
    requires z.Valid() && z.availIn < zbuf.Length && zbuf != z.outBuf && zbuf != z.inflateBuf
    modifies z`inBuf, z`nextIn, z`availIn, zbuf, src
    ensures z.Valid() && z.inBuf == zbuf
    ensures old(src.remaining) == chunk + src.remaining && (chunk == [] ==> old(src.remaining) == [])
    ensures z.Now() == old(z.Now()).(inBuf := zbuf, inEnd := z.nextIn + z.availIn,
      unread := old(z.Now()).unread + chunk)
  {
    var kept := z.inBuf[z.nextIn..z.nextIn + z.availIn];
    chunk := src.Read(zbuf.Length - z.availIn);
    var input := kept + chunk;
    forall i | 0 <= i < |input| { zbuf[i] := input[i]; }
    z.inBuf, z.nextIn, z.availIn := zbuf, 0, |input|;
    assert zbuf[0..|input|] == input;
  }

  /** What a reader can still deliver. */
  ghost function Deliverable(z: Stream, src: Source?, packed: bool): seq<byte>
    reads z, z.inBuf, z.outBuf, z.inflateBuf, src
    requires z.Valid()
  {
    var later := if src == null then [] else src.remaining;
    if packed then z.Now().Owed(later) else if src == null then z.Now().unread else later
  }

  /** A refill only moves bytes from the source to the input: nothing that is owed is lost. */
  lemma RefillKeepsOwed(t: View, u: View, v: View, got: seq<byte>, chunk: seq<byte>, later: seq<byte>)
    requires v == u.(inBuf := v.inBuf, inEnd := v.inEnd, unread := u.unread + chunk)
    requires t.Wrote(u, got)
    ensures v.Owed(later) == u.Owed(chunk + later) && t.Wrote(v, got)
  {
    hide UnpackRaw;
    Regroup(u.unread, chunk, later);
  }

  lemma ReadTurn(u: View, v: View, w: View, got: seq<byte>, out: seq<byte>, later: seq<byte>)
    requires u.Wrote(v, got) && v.Decodes(w, out)
    ensures u.Wrote(w, got + out) && w.room <= v.room
    ensures got + v.Owed(later) == (got + out) + w.Owed(later)
  {
    hide View.Owed;
    Regroup(got, out, w.Owed(later));
  }

  /** One turn of the loop of read_fp: inflate and, while the output is not full, refill. */
  method ReadChunk(z: Stream, src: Source, zbuf: array<byte>, ghost u: View, ghost got: seq<byte>)
    returns (more: bool, ghost got': seq<byte>)
    requires z.Valid() && z.inBuf != z.outBuf && zbuf.Length == 4096 && z.availOut > 0
    requires zbuf != z.outBuf && zbuf != z.inflateBuf && u.Wrote(z.Now(), got)
    modifies z, z.outBuf, zbuf, z.inflateBuf, src
    ensures z.Valid() && z.outBuf == old(z.outBuf) && (z.inBuf == old(z.inBuf) || z.inBuf == zbuf)
    ensures u.Wrote(z.Now(), got') && z.availOut <= old(z.availOut)
    ensures got' + z.Now().Owed(src.remaining) == got + old(z.Now().Owed(src.remaining))
    ensures |src.remaining| <= old(|src.remaining|)
    ensures more ==> z.availOut == 0 || |src.remaining| < old(|src.remaining|)
    ensures !more ==> z.availOut > 0 && z.Now().Owed(src.remaining) == []
  {
    hide View.Owed, View.Wrote, View.Decodes, Stream.Now;
    ghost var v := z.Now();
    ghost var out;
    var r;
    r, out := z.Inflate();
    got' := got + out;
    ghost var w := z.Now();
    ReadTurn(u, v, w, got, out, src.remaining);
    more := true;
    if z.availOut > 0 {
      var chunk := Refill(z, zbuf, src);
      RefillKeepsOwed(u, w, z.Now(), got', chunk, src.remaining);
      more := chunk != [];
      if !more {
        assert w.unread + [] == w.unread;
      }
    }
  }

  /** The packed branch of read_fp over a file or a descriptor. */
  method ReadPacked(z: Stream, src: Source, p: array<byte>, off: nat, sz: nat, zbuf: array<byte>) returns (ok: bool)
    requires z.Valid() && off + sz <= p.Length && zbuf.Length == 4096
    requires p != z.inBuf && p != zbuf && z.inflateBuf != p && z.inflateBuf != zbuf
    modifies z, p, zbuf, z.inflateBuf, src
    ensures z.Valid() && (z.inBuf == old(z.inBuf) || z.inBuf == zbuf)
    ensures ok <==> |old(z.Now().Owed(src.remaining))| >= sz
    ensures ok ==> old(z.Now().Owed(src.remaining)) == p[off..off + sz] + z.Now().Owed(src.remaining)
    ensures p[..off] == old(p[..off]) && p[off + sz..] == old(p[off + sz..])
  {
    hide View.Owed, View.Wrote, Stream.Now;
    ghost var goal := z.Now().Owed(src.remaining);
    ghost var u := Aim(z, p, off, sz, src.remaining);
    ghost var got: seq<byte> := [];
    ok := true;
    while z.availOut > 0 && ok
      invariant z.Valid() && z.outBuf == p && (z.inBuf == old(z.inBuf) || z.inBuf == zbuf)
      invariant u.Wrote(z.Now(), got) && goal == got + z.Now().Owed(src.remaining)
      invariant !ok ==> z.availOut > 0 && z.Now().Owed(src.remaining) == []
      decreases z.availOut, |src.remaining|, ok
    {
      ok, got := ReadChunk(z, src, zbuf, u, got);
    }
    Landed(z, u, got, off, sz);
    assert p[off + sz..] == old(p[off..])[sz..];
  }

  /** Points the stream at its output. */
  method Aim(z: Stream, p: array<byte>, off: nat, sz: nat, ghost later: seq<byte>) returns (ghost u: View)
    requires z.Valid() && off + sz <= p.Length && p != z.inBuf && z.inflateBuf != p
    modifies z`outBuf, z`nextOut, z`availOut
    ensures z.Valid() && z.outBuf == p && u == z.Now() && u.Wrote(z.Now(), [])
    ensures u.Owed(later) == old(z.Now().Owed(later)) && z.availOut == sz
    ensures u.written == p[..off] && u.rest == p[off..] && u.room == sz
  {
    z.outBuf, z.nextOut, z.availOut := p, off, sz;
    u := z.Now();
    assert u.written + [] == u.written;
  }

  /** Where the bytes have gone when the output is full. */
  lemma Landed(z: Stream, u: View, got: seq<byte>, off: nat, sz: nat)
    requires z.Valid() && u.Wrote(z.Now(), got) && |u.written| == off && u.room == sz && sz <= |u.rest|
    ensures |got| <= sz && (|got| == sz <==> z.availOut == 0)
    ensures off + sz <= z.outBuf.Length && (|got| == sz ==> z.outBuf[off..off + sz] == got)
    ensures z.outBuf[..off] == u.written && z.outBuf[off + sz..] == u.rest[sz..]
  {
    var n := z.nextOut;
    assert n == off + |got| && z.outBuf[..off] == z.outBuf[..n][..off];
    assert z.outBuf[off + sz..] == z.outBuf[n..][sz - |got|..];
    assert z.outBuf[off..n] == z.outBuf[..n][off..];
  }

  /** The unpacked read of a file or descriptor: read until `sz` bytes are there or nothing is left. */
  method ReadAll(src: Source, p: array<byte>, off: nat, sz: nat) returns (ok: bool)
    requires off + sz <= p.Length
    modifies p, src
    ensures ok <==> |old(src.remaining)| >= sz
    ensures ok ==> old(src.remaining) == p[off..off + sz] + src.remaining
    ensures p[..off] == old(p[..off]) && p[off + sz..] == old(p[off + sz..])
  {
    var got := 0;
    while got < sz
      invariant got <= sz && old(src.remaining) == p[off..off + got] + src.remaining
      invariant p[..off] == old(p[..off]) && p[off + sz..] == old(p[off + sz..])
    {
      var chunk := src.Read(sz - got);
      if chunk == [] {
        return false;
      }
      CopyBehind(p, off, got, sz, chunk, old(src.remaining), src.remaining);
      got := got + |chunk|;
    }
    ok := true;
  }

  method CopyBehind(p: array<byte>, off: nat, got: nat, sz: nat, chunk: seq<byte>, ghost all: seq<byte>,
      ghost left: seq<byte>)
    requires off + sz <= p.Length && got + |chunk| <= sz
    requires all == p[off..off + got] + (chunk + left)
    modifies p
    ensures p[..off] == old(p[..off]) && p[off + sz..] == old(p[off + sz..])
    ensures all == p[off..off + got + |chunk|] + left
  {
    ghost var before := p[off..off + got];
    forall i | 0 <= i < |chunk| { p[off + got + i] := chunk[i]; }
    assert p[off..off + got + |chunk|] == before + chunk;
    Regroup(before, chunk, left);
  }

  /** The packed read from memory: one call of capn_inflate has to fill the output. */
  method ReadPackedMemory(z: Stream, p: array<byte>, off: nat, sz: nat) returns (ok: bool)
    requires z.Valid() && off + sz <= p.Length && p != z.inBuf && z.inflateBuf != p
    modifies z, p, z.inflateBuf
    ensures z.Valid() && z.inBuf == old(z.inBuf)
    ensures ok <==> |old(z.Now().Owed([]))| >= sz
    ensures ok ==> old(z.Now().Owed([])) == p[off..off + sz] + z.Now().Owed([])
    ensures p[..off] == old(p[..off]) && p[off + sz..] == old(p[off + sz..])
  {
    hide View.Owed, View.Wrote, Stream.Now;
    ghost var u := Aim(z, p, off, sz, []);
    ghost var got;
    var r;
    r, got := z.Inflate();
    Landed(z, u, got, off, sz);
    ok := r == Done;
    assert p[off + sz..] == old(p[off..])[sz..];
  }

  /**
   read_fp: fills p[off..off + sz] with the next bytes that are deliverable, packed or not, from
   memory or from a source that hands out its data in pieces of any size. It fails exactly when
   there are not enough of them, or none are wanted of a plain FILE.
   */
  method ReadFp(z: Stream, src: Source?, packed: bool, p: array<byte>, off: nat, sz: nat, zbuf: array<byte>)
    returns (ok: bool)
    requires z.Valid() && off + sz <= p.Length && zbuf.Length == 4096
    requires p != z.inBuf && p != zbuf && z.inflateBuf != p && z.inflateBuf != zbuf
    modifies z, p, zbuf, z.inflateBuf, src
    ensures z.Valid() && (z.inBuf == old(z.inBuf) || z.inBuf == zbuf)
    ensures ok <==> |old(Deliverable(z, src, packed))| >= sz && !Refuses(src, packed, sz)
    ensures ok ==> old(Deliverable(z, src, packed)) == p[off..off + sz] + Deliverable(z, src, packed)
    ensures p[..off] == old(p[..off]) && p[off + sz..] == old(p[off + sz..])
  {
    hide View.Owed;
    if src != null && packed {
      ok := ReadPacked(z, src, p, off, sz, zbuf);
    } else if src != null {
      if src.file && sz == 0 {
        return false;
      }
      ok := ReadAll(src, p, off, sz);
    } else if packed {
      ok := ReadPackedMemory(z, p, off, sz);
    } else {
      if z.availIn < sz {
        return false;
      }
      ReadMemory(z, p, off, sz);
      ok := true;
    }
  }

  method ReadMemory(z: Stream, p: array<byte>, off: nat, sz: nat)
    requires z.Valid() && off + sz <= p.Length && p != z.inBuf && z.inflateBuf != p && sz <= z.availIn
    modifies z`nextIn, z`availIn, z`outBuf, z`nextOut, z`availOut, p
    ensures z.Valid() && z.inBuf == old(z.inBuf)
    ensures old(z.Now().unread) == p[off..off + sz] + z.Now().unread
    ensures p[..off] == old(p[..off]) && p[off + sz..] == old(p[off + sz..])
  {
    var unread := z.inBuf[z.nextIn..z.nextIn + z.availIn];
    hide View.Owed;
    forall i | 0 <= i < sz { p[off + i] := unread[i]; }
    assert p[off..off + sz] == unread[..sz];
    assert z.inBuf[z.nextIn + sz..z.nextIn + z.availIn] == unread[sz..];
    z.nextIn, z.availIn := z.nextIn + sz, z.availIn - sz;
    z.outBuf, z.nextOut, z.availOut := p, off + sz, 0;
    assert z.Now().unread == unread[sz..];
    assert unread == unread[..sz] + unread[sz..];
  }

  // ---- every schedule ---------------------------------------------------------------------

  /** What a caller of capn_inflate does: give it a new output buffer and call it, or add input. */
  datatype Step = Call(before: View, r: Status, out: seq<byte>, after: View) | Feed(chunk: seq<byte>, after: View)

  ghost predicate SameState(u: View, v: View) {
    u.unread == v.unread && u.raw == v.raw && u.zeros == v.zeros && u.pending == v.pending
  }

  ghost predicate Possible(u: View, s: Step) {
    match s
    case Call(before, r, out, after) =>
      && SameState(u, before) && before.Decodes(after, out)
      && (r == Done <==> after.room == 0) && (r != Done ==> r == NeedMore && after.Owed([]) == [])
    case Feed(chunk, after) => SameState(u.(unread := u.unread + chunk), after)
  }

  ghost predicate Run(u: View, steps: seq<Step>)
    decreases |steps|
  {
    steps == [] || (Possible(u, steps[0]) && Run(steps[0].after, steps[1..]))
  }

  ghost function Fed(steps: seq<Step>): seq<byte> {
    if steps == [] then [] else (if steps[0].Feed? then steps[0].chunk else []) + Fed(steps[1..])
  }

  ghost function Written(steps: seq<Step>): seq<byte> {
    if steps == [] then [] else (if steps[0].Call? then steps[0].out else []) + Written(steps[1..])
  }

  ghost function Last(u: View, steps: seq<Step>): View
    decreases |steps|
  {
    if steps == [] then u else Last(steps[0].after, steps[1..])
  }

  lemma {:induction false} RunDecodes(u: View, steps: seq<Step>, later: seq<byte>)
    requires Run(u, steps)
    ensures u.Owed(Fed(steps) + later) == Written(steps) + Last(u, steps).Owed(later)
    decreases |steps|
  {
    hide View.Owed, Possible;
    if steps == [] {
      assert Fed(steps) + later == later;
    } else {
      var s, rest := steps[0], steps[1..];
      RunDecodes(s.after, rest, later);
      StepDecodes(u, s, Fed(rest) + later);
      match s
      case Call(_, _, out, after) =>
        assert Fed(steps) == Fed(rest);
        Regroup(out, Written(rest), Last(u, steps).Owed(later));
      case Feed(chunk, after) =>
        Regroup(chunk, Fed(rest), later);
    }
  }

  lemma StepDecodes(u: View, s: Step, later: seq<byte>)
    requires Possible(u, s)
    ensures s.Call? ==> u.Owed(later) == s.out + s.after.Owed(later)
    ensures s.Feed? ==> u.Owed(s.chunk + later) == s.after.Owed(later)
  {
    hide UnpackRaw;
    match s
    case Call(before, _, out, after) =>
      assert before.Owed(later) == u.Owed(later);
    case Feed(chunk, after) =>
      Regroup(u.unread, chunk, later);
  }

  /**
   The packing round trip: however the packing of `ws` is cut into inputs and whatever output buffers
   are offered, what comes out is ws, followed by whatever the rest of the input decodes to.
   */
  lemma RoundTripUnderEverySchedule(ws: seq<byte>, rest: seq<byte>, u: View, steps: seq<Step>, later: seq<byte>)
    requires Words(ws) && Run(u, steps)
    requires u.unread == [] && u.raw == 0 && u.zeros == 0 && u.pending == []
    requires Fed(steps) + later == Pack(ws) + rest
    ensures Written(steps) + Last(u, steps).Owed(later) == ws + Unpack(rest)
    ensures |Written(steps)| <= |ws| ==> Written(steps) == ws[..|Written(steps)|]
  {
    RunDecodes(u, steps, later);
    UnpackPack(ws, rest);
    hide Unpack, Pack, Run, Last;
    FreshOwes(u, Pack(ws) + rest);
    var all := ws + Unpack(rest);
    assert Written(steps) == all[..|Written(steps)|];
  }

  /**
   And all of it comes out: once the whole packing has been fed, a last call that wants more input, or
   that was offered room for all of ws, completes it.
   */
  lemma RoundTripCompletes(ws: seq<byte>, u: View, steps: seq<Step>)
    requires Words(ws) && Run(u, steps) && Fed(steps) == Pack(ws)
    requires u.unread == [] && u.raw == 0 && u.zeros == 0 && u.pending == []
    requires steps != [] && steps[|steps| - 1].Call?
    requires steps[|steps| - 1].r != Done || steps[|steps| - 1].before.room >= |ws|
    ensures Written(steps) == ws
  {
    var s := steps[|steps| - 1];
    assert Pack(ws) + [] == Pack(ws) && ws + Unpack([]) == ws;
    RoundTripUnderEverySchedule(ws, [], u, steps, []);
    LastStep(u, steps);
    hide Unpack, Pack, Run, Last, Written, Fed;
    if s.r == Done {
      assert |s.out| == s.before.room;
    }
  }

  lemma {:induction false} LastStep(u: View, steps: seq<Step>)
    requires Run(u, steps) && steps != [] && steps[|steps| - 1].Call?
    ensures var s := steps[|steps| - 1];
      && Last(u, steps) == s.after && |s.out| <= |Written(steps)| && s.before.Decodes(s.after, s.out)
      && (s.r == Done <==> s.after.room == 0) && (s.r != Done ==> s.after.Owed([]) == [])
    decreases |steps|
  {
    hide View.Owed, View.Decodes;
    if |steps| > 1 {
      LastStep(steps[0].after, steps[1..]);
    } else {
      assert Last(u, steps) == Last(steps[0].after, []);
    }
  }

  lemma FreshOwes(u: View, p: seq<byte>)
    requires u.unread == [] && u.raw == 0 && u.zeros == 0 && u.pending == []
    ensures u.Owed(p) == Unpack(p)
  {
    hide Unpack;
    assert [] + p == p && p[0..] == p;
  }
}
