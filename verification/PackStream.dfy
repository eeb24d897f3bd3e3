/** The resumable packing and unpacking state machines of capn-stream.c. */
module PackStream {
  import opened Powers
  import opened Bytes
  import opened Packing

  datatype Status = Done | NeedMore | Misaligned

  /**
   The value of a stream: the input not yet read, the output written, the rest of its buffer, and
   the state carried from one call to the next.
   */
  datatype View = View(inBuf: array<byte>, inEnd: nat, unread: seq<byte>,
                       outBuf: array<byte>, written: seq<byte>, rest: seq<byte>, room: nat,
                       raw: nat, zeros: nat, pending: seq<byte>)
  {
    /** `bytes` are appended to the output, and nothing else is written. */
    ghost predicate Wrote(v: View, bytes: seq<byte>) {
      && v.outBuf == outBuf && v.written == written + bytes
      && |bytes| <= |rest| && v.rest == rest[|bytes|..]
      && |bytes| <= room && v.room == room - |bytes|
    }

    /** Some input is consumed, and `bytes` are appended to the output. */
    ghost predicate Leads(v: View, bytes: seq<byte>) {
      && v.inBuf == inBuf && v.inEnd == inEnd
      && |v.unread| <= |unread| && v.unread == unread[|unread| - |v.unread|..]
      && Wrote(v, bytes)
    }

    /** An outstanding raw span and the input stay in step, word for word. */
    ghost predicate Synced() { (|unread| as int - raw) % 8 == 0 }

    /** The packing still owed for the input at hand. */
    ghost function ToEmit(): seq<byte>
      requires Synced()
    {
      PackRest(raw, unread)
    }

    /** How far the room at hand goes. */
    ghost function Reach(): Filled
      requires Synced()
    {
      Fill(raw, unread, room)
    }

    /** A raw span never reaches past the input it was counted in. */
    ghost predicate SpanInside() { raw <= |unread| }

    /** Deflating cannot go on: no input, no room, or not enough room for the next token's head. */
    ghost predicate Stopped()
      requires Synced()
    {
      unread == [] || room == 0 || (raw == 0 && room < HeadSize(unread))
    }

    /** What deflating does: the output grows by exactly the part of the packing that is no longer owed. */
    ghost predicate Emits(v: View, bytes: seq<byte>) {
      && Leads(v, bytes) && Synced() && v.Synced()
      && ToEmit() == bytes + v.ToEmit()
      && Reach() == v.Reach().Plus(|bytes|, |unread| - |v.unread|)
      && (SpanInside() ==> v.SpanInside())
    }

    /** The packing owed starts with `bytes`, for the next `n` bytes of input, and goes on with `span` raw bytes. */
    ghost predicate Splits(bytes: seq<byte>, n: nat, span: nat) {
      && Synced() && n <= |unread| && |bytes| <= room
      && var v := this.(unread := unread[n..], raw := span, room := room - |bytes|);
      && v.Synced() && ToEmit() == bytes + v.ToEmit() && Reach() == v.Reach().Plus(|bytes|, n)
      && (SpanInside() ==> v.SpanInside())
    }

    /** Everything the stream can still decode if `future` follows the input at hand. */
    ghost function Owed(future: seq<byte>): seq<byte> {
      pending + (Zeros(zeros) + UnpackRaw(raw, unread + future))
    }

    /** What inflating does: whatever input follows later, the output is the next part of the decoding. */
    ghost predicate Decodes(v: View, bytes: seq<byte>) {
      Leads(v, bytes) && forall future :: Owed(future) == bytes + v.Owed(future)
    }
  }

  lemma LeadsTrans(u: View, v: View, w: View, a: seq<byte>, b: seq<byte>)
    requires u.Leads(v, a) && v.Leads(w, b)
    ensures u.Leads(w, a + b)
  {
  }

  lemma EmitsTrans(u: View, v: View, w: View, a: seq<byte>, b: seq<byte>)
    requires u.Emits(v, a) && v.Emits(w, b)
    ensures u.Emits(w, a + b)
  {
    LeadsTrans(u, v, w, a, b);
    hide PackRest, Fill;
    hide View.Leads;
    Regroup(a, b, w.ToEmit());
  }

  lemma DecodesTrans(u: View, v: View, w: View, a: seq<byte>, b: seq<byte>)
    requires u.Decodes(v, a) && v.Decodes(w, b)
    ensures u.Decodes(w, a + b)
  {
    LeadsTrans(u, v, w, a, b);
    hide View.Leads;
    hide View.Owed;
    forall future ensures u.Owed(future) == (a + b) + w.Owed(future) {
      Regroup(a, b, w.Owed(future));
    }
  }

  /** struct capn_stream: a pointer into a buffer is the buffer and an index. */
  class Stream {
    var inBuf: array<byte>
    var nextIn: nat
    var availIn: nat
    var outBuf: array<byte>
    var nextOut: nat
    var availOut: nat
    var zeros: nat
    var raw: nat
    const inflateBuf: array<byte>
    var availBuf: nat

    ghost predicate Valid()
      reads this
    {
      && nextIn + availIn <= inBuf.Length
      && nextOut + availOut <= outBuf.Length
      && inflateBuf.Length == 8 && availBuf <= 8
      && inflateBuf != inBuf && inflateBuf != outBuf
    }

    ghost function Now(): (v: View)
      reads this, inBuf, outBuf, inflateBuf
      requires Valid()
      ensures |v.unread| == availIn && v.room == availOut
      ensures v.raw == raw && v.zeros == zeros && |v.pending| == availBuf
    {
      View(inBuf, nextIn + availIn, inBuf[nextIn..nextIn + availIn],
           outBuf, outBuf[..nextOut], outBuf[nextOut..], availOut,
           raw, zeros, inflateBuf[..availBuf])
    }

    /** A freshly zeroed stream. */
    constructor (input: array<byte>, inPos: nat, inLen: nat, output: array<byte>, outPos: nat, outLen: nat)
      requires inPos + inLen <= input.Length && outPos + outLen <= output.Length
      ensures Valid() && fresh(inflateBuf)
      ensures inBuf == input && nextIn == inPos && availIn == inLen
      ensures outBuf == output && nextOut == outPos && availOut == outLen
      ensures zeros == 0 && raw == 0 && availBuf == 0
    {
      inBuf, nextIn, availIn := input, inPos, inLen;
      outBuf, nextOut, availOut := output, outPos, outLen;
      zeros, raw, availBuf := 0, 0, 0;
      inflateBuf := new byte[8](_ => 0);
    }

    /** Appends `bytes` to the output. */
    method Put(bytes: seq<byte>)
      requires Valid() && |bytes| <= availOut
      requires inBuf == outBuf ==> nextOut + |bytes| <= nextIn
      modifies this`nextOut, this`availOut, outBuf
      ensures Valid() && nextOut == old(nextOut) + |bytes| && availOut == old(availOut) - |bytes|
      ensures old(Now()).Leads(Now(), bytes) && Now() == old(Now()).(written := Now().written, rest := Now().rest,
        room := availOut)
    {
      ghost var u := Now();
      forall i | 0 <= i < |bytes| { outBuf[nextOut + i] := bytes[i]; }
      nextOut, availOut := nextOut + |bytes|, availOut - |bytes|;
      assert outBuf[..nextOut] == u.written + bytes;
      assert outBuf[nextOut..] == u.rest[|bytes|..];
      assert inBuf[nextIn..nextIn + availIn] == u.unread;
    }

    /** Consumes `n` bytes of input, after which `span` bytes of a raw span are outstanding. */
    method Skip(n: nat, span: nat)
      requires Valid() && n <= availIn
      modifies this`nextIn, this`availIn, this`raw
      ensures Valid() && nextIn == old(nextIn) + n && availIn == old(availIn) - n && raw == span
      ensures old(Now()).Leads(Now(), [])
      ensures Now() == old(Now()).(unread := old(Now()).unread[n..], raw := span)
    {
      ghost var u := Now();
      nextIn, availIn, raw := nextIn + n, availIn - n, span;
      assert Now().unread == u.unread[n..];
      assert u.written + [] == u.written;
    }

    // ---- deflate --------------------------------------------------------------------------

    /**
     Deflating in place: the output may lie in the buffer that holds the input, provided two bytes
     separate the worst case of the output from the unread input.
     */
    ghost predicate Apart()
      reads this
    {
      inBuf == outBuf ==> nextOut + availIn + 2 <= nextIn
    }

    ghost predicate DeflateReady()
      reads this
    {
      Valid() && Apart() && (availIn as int - raw) % 8 == 0
    }

    /** Appends `bytes`, consumes `used` bytes and leaves `span` bytes to copy, where the packing splits so. */
    method Emit(bytes: seq<byte>, used: nat, span: nat)
      requires DeflateReady() && |bytes| <= availOut && 0 < used <= availIn
      requires |bytes| <= used + 2 && (|bytes| <= used || used >= 2)
      requires (availIn as int - used - span) % 8 == 0 && Now().Splits(bytes, used, span)
      modifies this`nextIn, this`availIn, this`nextOut, this`availOut, this`raw, outBuf
      ensures DeflateReady() && availIn == old(availIn) - used && availOut == old(availOut) - |bytes|
      ensures old(Now()).Emits(Now(), bytes)
    {
      hide View.Splits, View.Leads, View.Emits, Stream.Now;
      ghost var u := Now();
      Put(bytes);
      ghost var v := Now();
      Skip(used, span);
      EmitsBy(u, v, Now(), bytes, used);
    }

    /** The branch that copies an outstanding raw span. */
    method DeflateRaw() returns (ghost out: seq<byte>)
      requires DeflateReady() && raw > 0 && availIn > 0 && availOut > 0
      modifies this`nextIn, this`availIn, this`nextOut, this`availOut, this`raw, outBuf
      ensures DeflateReady() && availIn < old(availIn)
      ensures old(Now()).Emits(Now(), out)
      ensures (old(availIn) % 8 == 0 ==> availIn % 8 == 0) || availOut == 0
    {
      hide View.Leads, View.Splits, View.Emits, Stream.Now;
      var sz := Least(raw, Least(availIn, availOut));
      var bytes := NextBytes(sz);
      CopySplits(Now(), sz);
      Emit(bytes, sz, raw - sz);
      out := bytes;
    }

    method NextBytes(n: nat) returns (bytes: seq<byte>)
      requires Valid() && n <= availIn
      ensures bytes == Now().unread[..n]
    {
      bytes := inBuf[nextIn..nextIn + n];
    }

    /** The scan that classifies the next word: how many bytes are not zero, and which. */
    method ScanWord(w: seq<byte>) returns (sz: nat, hdr: nat)
      requires |w| == 8
      ensures sz == NonZeros(w) && hdr == Tag(w)
    {
      sz, hdr := 0, 0;
      for i := 0 to 8
        invariant sz + NonZeros(w[i..]) == NonZeros(w)
        invariant hdr + Pow2(i) * Tag(w[i..]) == Tag(w)
      {
        assert w[i..][1..] == w[i + 1..];
        ShiftTag(Pow2(i), if w[i] != 0 then 1 else 0, Tag(w[i + 1..]));
        if w[i] != 0 {
          sz, hdr := sz + 1, hdr + Pow2(i);
        }
      }
    }

    lemma ShiftTag(bit: nat, b: nat, t: nat)
      ensures bit * (b + 2 * t) == bit * b + 2 * bit * t
    {
    }

    /** The scan of case 0: how many zero words follow one another, 256 at most. */
    method CountZeroWords(ws: seq<byte>) returns (sz: nat)
      requires Words(ws) && ws != [] && NonZeros(ws[..8]) == 0
      ensures 1 <= sz == ZeroRun(ws, 256)
    {
      sz := 1;
      while sz < Least(|ws| / 8, 256) && NonZeros(ws[8 * sz..8 * sz + 8]) == 0
        invariant 1 <= sz <= 256 && 8 * sz <= |ws|
        invariant ZeroRun(ws, 256) == sz + ZeroRun(ws[8 * sz..], 256 - sz)
      {
        assert ws[8 * sz..8 * sz + 8] == ws[8 * sz..][..8];
        assert ws[8 * sz..][8..] == ws[8 * (sz + 1)..];
        sz := sz + 1;
      }
      if sz < Least(|ws| / 8, 256) {
        assert ws[8 * sz..8 * sz + 8] == ws[8 * sz..][..8];
      }
    }

    /** The scan of case 8: how many words join a raw span, 255 at most. */
    method CountDenseWords(ws: seq<byte>) returns (nw: nat)
      requires Words(ws)
      ensures nw == DenseRun(ws, 255)
    {
      var maxw := Least(|ws| / 8, 255);
      nw := 0;
      while nw < maxw
        invariant nw <= maxw
        invariant DenseRun(ws, 255) == nw + DenseRun(ws[8 * nw..], 255 - nw)
      {
        var w := ws[8 * nw..8 * nw + 8];
        assert w == ws[8 * nw..][..8];
        var zeros := CountZeroBytes(w);
        if zeros >= 2 {
          break;
        }
        assert ws[8 * nw..][8..] == ws[8 * (nw + 1)..];
        nw := nw + 1;
      }
    }

    method CountZeroBytes(w: seq<byte>) returns (zeros: nat)
      ensures zeros + NonZeros(w) == |w|
    {
      zeros := 0;
      for b := 0 to |w|
        invariant zeros + NonZeros(w) == b + NonZeros(w[b..])
      {
        assert w[b..][1..] == w[b + 1..];
        if w[b] == 0 {
          zeros := zeros + 1;
        }
      }
    }

    /** The bytes of a tagged word, in order, without its zeros. */
    method Gather(w: seq<byte>) returns (s: seq<byte>)
      ensures s == Squeeze(w)
    {
      hide Squeeze;
      s := [];
      SqueezeEnds(w);
      for i := 0 to |w|
        invariant s + Squeeze(w[i..]) == Squeeze(w)
      {
        SqueezeNext(w, i);
        if w[i] != 0 {
          Regroup(s, [w[i]], Squeeze(w[i + 1..]));
          s := s + [w[i]];
        }
      }
    }

    lemma SqueezeEnds(w: seq<byte>)
      ensures Squeeze(w[0..]) == Squeeze(w) && Squeeze(w[|w|..]) == []
    {
      assert w[0..] == w;
    }

    lemma SqueezeNext(w: seq<byte>, i: nat)
      requires i < |w|
      ensures Squeeze(w[i..]) == if w[i] != 0 then [w[i]] + Squeeze(w[i + 1..]) else Squeeze(w[i + 1..])
    {
      assert w[i..][1..] == w[i + 1..];
    }

    /** The switch of capn_deflate on the next word: its token up to the raw span, unless `room` is too small. */
    method NextToken(ws: seq<byte>, room: nat) returns (ok: bool, t: seq<byte>, used: nat, span: nat)
      requires Words(ws) && ws != []
      ensures ok ==> |t| <= room && |t| <= used + 2 && 8 <= used <= |ws| && used % 8 == 0 && span % 8 == 0
      ensures ok ==> used + span == 8 * TokenWords(ws) && Token(ws) == t + ws[used..used + span]
      ensures ok ==> used == HeadUsed(ws) && span == SpanSize(ws) && |t| == HeadSize(ws)
      ensures !ok ==> room < HeadSize(ws)
    {
      hide NonZeros, Tag, Squeeze, ZeroRun, DenseRun;
      var w := ws[..8];
      var sz, hdr := ScanWord(w);
      ok, t, used, span := true, [], 8, 0;
      if sz == 0 {
        if room < 2 {
          return false, t, used, span;
        }
        var n := CountZeroWords(ws);
        t, used := [0, n - 1], 8 * n;
      } else if sz == 8 {
        if room < 10 {
          return false, t, used, span;
        }
        var nw := CountDenseWords(ws[8..]);
        var extra: byte := nw;
        t, span := [255 as byte] + w + [extra], 8 * nw;
      } else {
        if room < 1 + sz {
          return false, t, used, span;
        }
        TagBounds(w);
        t := Gather(w);
        t := [hdr] + t;
      }
    }

    /** Emits the next token, or reports that the output has no room for it. */
    method DeflateWord() returns (ok: bool, ghost out: seq<byte>)
      requires DeflateReady() && raw == 0 && availIn >= 8 && availIn % 8 == 0
      modifies this`nextIn, this`availIn, this`nextOut, this`availOut, this`raw, outBuf
      ensures DeflateReady() && availIn % 8 == 0
      ensures ok ==> availIn < old(availIn) && old(Now()).Emits(Now(), out)
      ensures !ok ==> Now() == old(Now()) && availOut < HeadSize(Now().unread)
    {
      hide Token, TokenWords, HeadUsed, HeadSize, SpanSize, View.Splits, View.Leads, View.Emits, Stream.Now;
      var ws := NextBytes(availIn);
      assert ws == Now().unread;
      var t, used, span;
      ok, t, used, span := NextToken(ws, availOut);
      out := t;
      if ok {
        TokenSplits(Now(), t);
        Mod8(availIn, used);
        Emit(t, used, span);
      }
    }

    /**
     capn_deflate. It refuses input that is not a whole number of words; otherwise it emits the
     packing of its input, all of it when there is room and a prefix of it when there is not.
     */
    method Deflate() returns (r: Status, ghost out: seq<byte>)
      requires Valid() && Apart() && (availIn % 8 == 0 ==> raw % 8 == 0)
      modifies this`nextIn, this`availIn, this`nextOut, this`availOut, this`raw, outBuf
      ensures Valid() && Apart()
      ensures r == Misaligned <==> old(availIn) % 8 != 0
      ensures r == Misaligned ==> Now() == old(Now())
      ensures r != Misaligned ==> old(Now()).Emits(Now(), out)
      ensures r == Done ==> availIn == 0
      ensures r != Misaligned ==> (r == Done <==> |old(Now()).ToEmit()| <= old(availOut))
      ensures r == NeedMore ==> availOut < 10 && availIn > 0
      ensures r != Misaligned ==> old(Now()).Reach() == Filled(|out|, old(availIn) - availIn, raw)
    {
      hide View.ToEmit, View.Reach, View.Leads, View.Emits, Stream.Now, HeadSize;
      out := [];
      if availIn % 8 != 0 {
        return Misaligned, out;
      }
      EmitsNothing(Now());
      while availIn > 0
        invariant DeflateReady()
        invariant old(Now()).Emits(Now(), out)
        invariant availIn % 8 == 0 || availOut == 0
        decreases availIn
      {
        ghost var u, more := Now(), [];
        var ok := availOut > 0;
        if ok && raw > 0 {
          more := DeflateRaw();
        } else if ok {
          ok, more := DeflateWord();
        }
        if !ok {
          DeflateStops(old(Now()), Now(), out);
          return NeedMore, out;
        }
        EmitsTrans(old(Now()), u, Now(), out, more);
        out := out + more;
      }
      DeflateStops(old(Now()), Now(), out);
      return Done, out;
    }

    // ---- inflate --------------------------------------------------------------------------

    ghost predicate InflateReady()
      reads this
    {
      Valid() && inBuf != outBuf
    }

    /** Hands out the bytes of the word decoded last, as far as the output has room for them. */
    method FlushWord() returns (ghost out: seq<byte>)
      requires InflateReady() && availOut > 0
      modifies this`nextOut, this`availOut, this`availBuf, outBuf, inflateBuf
      ensures InflateReady() && availOut <= old(availOut)
      ensures old(Now()).Decodes(Now(), out)
      ensures availBuf == 0 || availOut == 0
    {
      hide View.Leads, View.Decodes, UnpackRaw, Stream.Now;
      var n := Least(availBuf, availOut);
      ghost var u := Now();
      var bytes := PendingBytes(n);
      Put(bytes);
      ghost var v := Now();
      DropPending(n);
      FlushDecodes(u, v, Now(), n);
      out := bytes;
    }

    method PendingBytes(n: nat) returns (bytes: seq<byte>)
      requires Valid() && n <= availBuf
      ensures bytes == Now().pending[..n]
    {
      bytes := inflateBuf[..n];
    }

    method DropPending(n: nat)
      requires Valid() && n <= availBuf
      modifies this`availBuf, inflateBuf
      ensures Valid() && availBuf == old(availBuf) - n
      ensures Now() == old(Now()).(pending := old(Now()).pending[n..])
    {
      forall i | 0 <= i < availBuf - n { inflateBuf[i] := inflateBuf[n + i]; }
      availBuf := availBuf - n;
      assert inflateBuf[..availBuf] == old(Now()).pending[n..];
    }

    method SetPending(w: seq<byte>)
      requires Valid() && |w| == 8
      modifies this`availBuf, inflateBuf
      ensures Valid() && availBuf == 8
      ensures Now() == old(Now()).(pending := w)
    {
      forall i | 0 <= i < 8 { inflateBuf[i] := w[i]; }
      availBuf := 8;
      assert inflateBuf[..8] == w;
    }

    /** The branch that writes an outstanding run of zeros. */
    method InflateZeros() returns (ghost out: seq<byte>)
      requires InflateReady() && availOut > 0 && availBuf == 0 && zeros > 0
      modifies this`nextOut, this`availOut, this`zeros, outBuf
      ensures InflateReady() && availOut < old(availOut)
      ensures old(Now()).Decodes(Now(), out)
    {
      hide View.Leads, View.Decodes, UnpackRaw, Stream.Now;
      var sz := Least(availOut, zeros);
      ghost var u := Now();
      Put(Zeros(sz));
      ghost var v := Now();
      SetZeros(zeros - sz);
      ZerosDecode(u, v, Now(), sz);
      out := Zeros(sz);
    }

    method SetZeros(n: nat)
      requires Valid()
      modifies this`zeros
      ensures Valid() && zeros == n && Now() == old(Now()).(zeros := n)
    {
      zeros := n;
    }

    /** The branch that copies an outstanding raw span. */
    method InflateRaw() returns (ghost out: seq<byte>)
      requires InflateReady() && availOut > 0 && availBuf == 0 && zeros == 0 && raw > 0 && availIn > 0
      modifies this`nextIn, this`availIn, this`nextOut, this`availOut, this`raw, outBuf
      ensures InflateReady() && availOut < old(availOut) && availIn < old(availIn)
      ensures old(Now()).Decodes(Now(), out)
    {
      hide View.Leads, View.Decodes, UnpackRaw, Stream.Now;
      var sz := Least(Least(availOut, raw), availIn);
      ghost var u := Now();
      var bytes := NextBytes(sz);
      Put(bytes);
      ghost var v := Now();
      Skip(sz, raw - sz);
      RawDecodes(u, v, Now(), sz);
      out := bytes;
    }

    /** How many bits of a tag are set. */
    method CountBits(hdr: nat) returns (sz: nat)
      ensures sz == PopCount(hdr, 8)
    {
      sz := 0;
      for i := 0 to 8
        invariant sz + PopCount(Shr(hdr, i), 8 - i) == PopCount(hdr, 8)
      {
        if Shr(hdr, i) % 2 == 1 {
          sz := sz + 1;
        }
      }
    }

    /** Writes a tagged word: the next byte of `p` for each set bit, zero for the others. */
    method Spread(hdr: nat, p: seq<byte>) returns (w: seq<byte>)
      requires |p| == PopCount(hdr, 8)
      ensures w == Expand(hdr, 8, p)
    {
      hide Expand;
      w := [];
      var next := 0;
      assert p[0..] == p;
      for i := 0 to 8
        invariant next <= |p| && |p[next..]| == PopCount(Shr(hdr, i), 8 - i)
        invariant w + Expand(Shr(hdr, i), 8 - i, p[next..]) == Expand(hdr, 8, p)
      {
        ghost var q := p[next..];
        ExpandNext(Shr(hdr, i), 8 - i, q);
        if Shr(hdr, i) % 2 == 1 {
          assert q[1..] == p[next + 1..];
          Regroup(w, [p[next]], Expand(Shr(hdr, i + 1), 7 - i, q[1..]));
          w, next := w + [p[next]], next + 1;
        } else {
          Regroup(w, [0], Expand(Shr(hdr, i + 1), 7 - i, q));
          w := w + [0];
        }
      }
      ExpandNext(Shr(hdr, 8), 0, p[next..]);
    }

    /**
     The switch of capn_inflate on the next tag of `p`: the bytes its token takes, the word it
     decodes, and the zeros or the raw span that follow; false when the token is not complete.
     */
    method ReadToken(p: seq<byte>) returns (ok: bool, used: nat, word: seq<byte>, nzeros: nat, span: nat)
      ensures !ok ==> Unpack(p) == [] && |p| < 10
      ensures ok ==> 2 <= used <= |p| && (|word| == 8 || word == [])
      ensures ok ==> forall future :: Unpack(p + future) == word + (Zeros(nzeros) + UnpackRaw(span, p[used..] + future))
    {
      hide Unpack, UnpackRaw;
      ok, used, word, nzeros, span := false, 0, [], 0, 0;
      if |p| < 2 {
        ShortToken(p);
        return;
      }
      if p[0] == 255 {
        if |p| < 10 {
          ShortToken(p);
          return;
        }
        ok, used, word, span := true, 10, p[1..9], 8 * p[9] as nat;
        forall future ensures Unpack(p + future) == word + (Zeros(0) + UnpackRaw(span, p[10..] + future)) {
          SpanToken(p, future);
        }
      } else if p[0] == 0 {
        ok, used, nzeros := true, 2, 8 * (p[1] as nat + 1);
        forall future ensures Unpack(p + future) == [] + (Zeros(nzeros) + UnpackRaw(0, p[2..] + future)) {
          ZerosToken(p, future);
        }
      } else {
        var sz := CountBits(p[0]);
        if |p| < 1 + sz {
          ShortToken(p);
          return;
        }
        SomeBit(p[0]);
        word := Spread(p[0], p[1..1 + sz]);
        ok, used := true, 1 + sz;
        forall future ensures Unpack(p + future) == word + (Zeros(0) + UnpackRaw(0, p[used..] + future)) {
          TaggedToken(p, future);
        }
      }
    }

    /** Reads the next token into the state; false when it is not complete. */
    method InflateToken() returns (ok: bool)
      requires InflateReady() && availBuf == 0 && zeros == 0 && raw == 0
      modifies this`nextIn, this`availIn, this`raw, this`zeros, this`availBuf, inflateBuf
      ensures InflateReady() && availOut == old(availOut)
      ensures ok ==> availIn < old(availIn) && old(Now()).Decodes(Now(), [])
      ensures !ok ==> Now() == old(Now()) && Now().Owed([]) == [] && availIn < 10
    {
      hide View.Leads, View.Decodes, Stream.Now, Unpack;
      ghost var u := Now();
      var p := NextBytes(availIn);
      assert p == u.unread;
      var used, word, nzeros, span;
      ok, used, word, nzeros, span := ReadToken(p);
      if !ok {
        assert p + [] == p && p[0..] == p;
        return;
      }
      Skip(used, span);
      ghost var v := Now();
      SetZeros(nzeros);
      if word != [] {
        SetPending(word);
      }
      TokenDecodes(u, v, Now(), used, word, nzeros, span);
    }

    /**
     capn_inflate. It decodes until its output is full, or until the input at hand holds nothing
     more that can be decoded.
     */
    method Inflate() returns (r: Status, ghost out: seq<byte>)
      requires InflateReady()
      modifies this`nextIn, this`availIn, this`nextOut, this`availOut
      modifies this`raw, this`zeros, this`availBuf, outBuf, inflateBuf
      ensures InflateReady()
      ensures old(Now()).Decodes(Now(), out)
      ensures r == Done <==> availOut == 0
      ensures r != Done ==> r == NeedMore && Now().Owed([]) == [] && availIn < 10
    {
      hide View.Leads, View.Decodes, Stream.Now, UnpackRaw;
      out := [];
      DecodesNothing(Now());
      while availOut > 0
        invariant InflateReady() && old(Now()).Decodes(Now(), out)
        decreases availIn + availOut
      {
        ghost var u := Now();
        ghost var more := FlushWord();
        ghost var v := Now();
        DecodesTrans(old(Now()), u, v, out, more);
        out := out + more;
        if availOut == 0 {
          return Done, out;
        }
        more := [];
        if zeros > 0 {
          more := InflateZeros();
        } else if raw > 0 {
          if availIn == 0 {
            RawWaits(v);
            return NeedMore, out;
          }
          more := InflateRaw();
        } else {
          var ok := InflateToken();
          if !ok {
            return NeedMore, out;
          }
        }
        DecodesTrans(old(Now()), v, Now(), out, more);
        out := out + more;
      }
      return Done, out;
    }
  }

  lemma DecodesNothing(v: View)
    ensures v.Decodes(v, [])
  {
    hide View.Owed;
    forall future ensures v.Owed(future) == [] + v.Owed(future) { }
  }

  lemma RawWaits(v: View)
    requires v.pending == [] && v.zeros == 0 && v.raw > 0 && v.unread == []
    ensures v.Owed([]) == []
  {
  }

  lemma ShortToken(p: seq<byte>)
    requires |p| < 2 || (p[0] == 255 && |p| < 10) || (0 < p[0] < 255 && |p| < 1 + PopCount(p[0], 8))
    ensures Unpack(p) == []
  {
  }

  lemma SpanToken(p: seq<byte>, future: seq<byte>)
    requires |p| >= 10 && p[0] == 255
    ensures Unpack(p + future) == p[1..9] + (Zeros(0) + UnpackRaw(8 * p[9] as nat, p[10..] + future))
  {
    var q := p + future;
    assert q[1..9] == p[1..9] && q[10..] == p[10..] + future;
    hide Unpack;
    assert Zeros(0) + UnpackRaw(8 * p[9] as nat, q[10..]) == UnpackRaw(8 * p[9] as nat, q[10..]);
  }

  lemma ZerosToken(p: seq<byte>, future: seq<byte>)
    requires |p| >= 2 && p[0] == 0
    ensures Unpack(p + future) == [] + (Zeros(8 * (p[1] as nat + 1)) + UnpackRaw(0, p[2..] + future))
  {
    var q, n := p + future, 8 * (p[1] as nat + 1);
    assert Unpack(q) == Zeros(n) + Unpack(q[2..]);
    hide Unpack;
    assert q[2..] == p[2..] + future;
    assert UnpackRaw(0, q[2..]) == Unpack(q[2..]) by { assert q[2..][0..] == q[2..]; }
  }

  lemma TaggedToken(p: seq<byte>, future: seq<byte>)
    requires |p| >= 2 && 0 < p[0] < 255
    requires 1 <= PopCount(p[0], 8) && |p| >= 1 + PopCount(p[0], 8)
    ensures var k := PopCount(p[0], 8);
      Unpack(p + future) == Expand(p[0], 8, p[1..1 + k]) + (Zeros(0) + UnpackRaw(0, p[1 + k..] + future))
  {
    var q, k := p + future, PopCount(p[0], 8);
    assert q[1..1 + k] == p[1..1 + k] && q[1 + k..] == p[1 + k..] + future;
    assert UnpackRaw(0, q[1 + k..]) == Unpack(q[1 + k..]) by { assert q[1 + k..][0..] == q[1 + k..]; }
  }

  lemma SomeBit(tag: nat)
    requires 0 < tag < 256
    ensures PopCount(tag, 8) >= 1
  {
    NoBits(tag, 8);
    assert Pow2(8) == 256 by { assert Pow2(4) == 16; }
  }

  lemma {:induction false} NoBits(tag: nat, n: nat)
    requires tag < Pow2(n)
    ensures PopCount(tag, n) == 0 ==> tag == 0
  {
    if n > 0 {
      NoBits(tag / 2, n - 1);
    }
  }

  lemma TokenDecodes(u: View, v: View, w: View, used: nat, word: seq<byte>, nzeros: nat, span: nat)
    requires u.pending == [] && u.zeros == 0 && u.raw == 0 && used <= |u.unread|
    requires u.Leads(v, []) && v == u.(unread := u.unread[used..], raw := span)
    requires w == v.(zeros := nzeros, pending := word)
    requires forall future :: Unpack(u.unread + future) == word + (Zeros(nzeros) + UnpackRaw(span,
      u.unread[used..] + future))
    ensures u.Decodes(w, [])
  {
    hide Unpack;
    forall future ensures u.Owed(future) == [] + w.Owed(future) {
      assert UnpackRaw(0, u.unread + future) == Unpack(u.unread + future) by {
        assert (u.unread + future)[0..] == u.unread + future;
      }
    }
  }

  /** h >> i; a tag has bit i set when the shifted value is odd. */
  function Shr(h: nat, i: nat): nat { if i == 0 then h else Shr(h, i - 1) / 2 }

  lemma FlushDecodes(u: View, v: View, w: View, n: nat)
    requires n <= |u.pending| && u.Leads(v, u.pending[..n]) && v.unread == u.unread
    requires v.raw == u.raw && v.zeros == u.zeros && v.pending == u.pending
    requires w == v.(pending := v.pending[n..])
    ensures u.Decodes(w, u.pending[..n])
  {
    hide UnpackRaw;
    assert u.Leads(w, u.pending[..n]);
    hide View.Leads;
    forall future ensures u.Owed(future) == u.pending[..n] + w.Owed(future) {
      Regroup(u.pending[..n], w.pending, Zeros(u.zeros) + UnpackRaw(u.raw, u.unread + future));
      assert u.pending[..n] + w.pending == u.pending;
    }
  }

  lemma ZerosDecode(u: View, v: View, w: View, n: nat)
    requires n <= u.zeros && u.pending == [] && u.Leads(v, Zeros(n)) && v.unread == u.unread
    requires v.raw == u.raw && v.pending == u.pending
    requires w == v.(zeros := u.zeros - n)
    ensures u.Decodes(w, Zeros(n))
  {
    hide UnpackRaw;
    assert u.Leads(w, Zeros(n));
    hide View.Leads;
    forall future ensures u.Owed(future) == Zeros(n) + w.Owed(future) {
      Regroup(Zeros(n), Zeros(w.zeros), UnpackRaw(u.raw, u.unread + future));
      assert Zeros(n) + Zeros(w.zeros) == Zeros(u.zeros);
    }
  }

  lemma RawDecodes(u: View, v: View, w: View, n: nat)
    requires n <= u.raw && n <= |u.unread| && u.pending == [] && u.zeros == 0
    requires u.Leads(v, u.unread[..n]) && v.Leads(w, [])
    requires v.unread == u.unread && v.zeros == 0 && v.pending == []
    requires w == v.(unread := v.unread[n..], raw := u.raw - n)
    ensures u.Decodes(w, u.unread[..n])
  {
    LeadsTrans(u, v, w, u.unread[..n], []);
    assert u.unread[..n] + [] == u.unread[..n];
    hide View.Leads;
    forall future ensures u.Owed(future) == u.unread[..n] + w.Owed(future) {
      UnpackRawAfterCopy(u.raw, u.unread, future, n);
    }
  }

  lemma UnpackRawAfterCopy(raw: nat, p: seq<byte>, future: seq<byte>, n: nat)
    requires n <= raw && n <= |p|
    ensures UnpackRaw(raw, p + future) == p[..n] + UnpackRaw(raw - n, p[n..] + future)
  {
    hide Unpack;
    var q := p + future;
    assert q[n..] == p[n..] + future && q[..n] == p[..n];
    if raw <= |q| {
      assert q[..raw] == q[..n] + q[n..][..raw - n];
      assert q[n..][raw - n..] == q[raw..];
    }
  }

  lemma Mod8(a: nat, b: nat)
    requires a % 8 == 0 && b % 8 == 0 && b <= a
    ensures (a - b) % 8 == 0
  {
  }

  lemma PackRestEnd(raw: nat)
    requires raw % 8 == 0
    ensures PackRest(raw, []) == []
  {
  }

  lemma CopySplits(u: View, sz: nat)
    requires u.Synced() && u.raw > 0 && sz == Least(u.raw, Least(|u.unread|, u.room)) && sz > 0
    ensures u.Splits(u.unread[..sz], sz, u.raw - sz)
  {
    hide PackRest, Fill;
    PackRestAfterCopy(u.raw, u.unread, sz);
    FillAfterCopy(u.raw, u.unread, u.room);
  }

  lemma TokenSplits(u: View, t: seq<byte>)
    requires u.raw == 0 && u.Synced() && u.unread != []
    requires |t| == HeadSize(u.unread) <= u.room
    requires Token(u.unread) == t + u.unread[HeadUsed(u.unread)..HeadUsed(u.unread) + SpanSize(u.unread)]
    ensures u.Splits(t, HeadUsed(u.unread), SpanSize(u.unread))
  {
    hide PackRest, Token, TokenWords, HeadSize;
    PackRestAfterToken(u.unread, t, SpanSize(u.unread), HeadUsed(u.unread));
  }

  /** Appending `bytes` and then consuming `n` bytes emits `bytes`, if the packing splits there. */
  lemma EmitsBy(u: View, v: View, w: View, bytes: seq<byte>, n: nat)
    requires n <= |u.unread| && u.Leads(v, bytes) && v.unread == u.unread
    requires v.Leads(w, []) && |w.unread| == |v.unread| - n
    requires u.Splits(bytes, n, w.raw)
    ensures u.Emits(w, bytes)
  {
    hide PackRest, Fill;
    LeadsTrans(u, v, w, bytes, []);
    assert bytes + [] == bytes;
  }

  /** Deflating stops where the input ends or where the room does. */
  lemma DeflateStops(u: View, v: View, out: seq<byte>)
    requires u.Synced() && v.Synced() && u.Emits(v, out) && v.Stopped()
    requires v.unread == [] ==> v.raw % 8 == 0
    ensures v.unread == [] <==> |u.ToEmit()| <= u.room
    ensures u.Reach() == Filled(|out|, |u.unread| - |v.unread|, v.raw)
  {
    hide PackRest, Token, TokenWords;
    if v.unread == [] {
      PackRestEnd(v.raw);
    } else {
      PackRestGrows(v.raw, v.unread);
    }
  }

  lemma EmitsNothing(v: View)
    requires v.Synced()
    ensures v.Emits(v, [])
  {
    hide PackRest, Fill;
  }
}
