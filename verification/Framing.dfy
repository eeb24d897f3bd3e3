/**
 The framing format ("Serialization Over a Stream" in the Cap'n Proto encoding specification): a
 segment table in front of the segments. `Frame` is what a writer has to produce and `Parse` what a
 reader makes of a byte string; capn-malloc.c is proved against both in module MessageIO.
 */
module Framing {
  import opened Bytes
  import opened Packing

  const MAX_SEGS := 1024
  /** INT_MAX / 8 */
  const MAX_WORDS := 0xFFF_FFFF
  const UINT32_MAX := 0xFFFF_FFFF

  function LE32(n: nat): (b: seq<byte>)
    ensures |b| == 4
  {
    var (h, t, q) := (n / 256, n / 256 / 256, n / 256 / 256 / 256);
    [n % 256, h % 256, t % 256, q % 256]
  }

  function FromLE32(b: seq<byte>): (n: nat)
    requires |b| == 4
    ensures n <= UINT32_MAX
  {
    var (b0: nat, b1: nat, b2: nat, b3: nat) := (b[0], b[1], b[2], b[3]);
    b0 + 256 * (b1 + 256 * (b2 + 256 * b3))
  }

  lemma LE32RoundTrip(n: nat)
    ensures FromLE32(LE32(n)) == n % 0x1_0000_0000
  {
    var top := n / 256 / 256 / 256 / 256;
    var low := FromLE32(LE32(n));
    assert n == low + 0x1_0000_0000 * top;
    ModUnique(n, low, top);
  }

  lemma ModUnique(n: nat, low: nat, top: nat)
    requires n == low + 0x1_0000_0000 * top && low < 0x1_0000_0000
    ensures n % 0x1_0000_0000 == low
  {
  }

  function Word(u: seq<byte>, k: nat): nat
    requires 4 * k + 4 <= |u|
  {
    FromLE32(u[4 * k..4 * k + 4])
  }

  // ---- what is written --------------------------------------------------------------------

  function Lens(segs: seq<seq<byte>>): (ns: seq<nat>)
    ensures |ns| == |segs| && forall i | 0 <= i < |ns| :: ns[i] == |segs[i]|
  {
    seq(|segs|, i requires 0 <= i < |segs| => |segs[i]|)
  }

  function Sum(ns: seq<nat>): nat {
    if ns == [] then 0 else Sum(ns[..|ns| - 1]) + ns[|ns| - 1]
  }

  /** The size entries: each segment's length in words. */
  function Sizes(ns: seq<nat>): (b: seq<byte>)
    ensures |b| == 4 * |ns|
  {
    if ns == [] then [] else Sizes(ns[..|ns| - 1]) + LE32(ns[|ns| - 1] / 8)
  }

  /** The table is padded to a whole number of words. */
  function Header(ns: seq<nat>): (b: seq<byte>)
    requires ns != []
    ensures |b| == HeaderSize(|ns|)
  {
    LE32(|ns| - 1) + Sizes(ns) + if |ns| % 2 == 0 then LE32(0) else []
  }

  function HeaderSize(segnum: nat): (n: nat)
    ensures n % 8 == 0
  {
    4 * ((2 + segnum) / 2 * 2)
  }

  function Frame(segs: seq<seq<byte>>): seq<byte>
    requires segs != []
  {
    Header(Lens(segs)) + Concat(segs)
  }

  ghost predicate WholeWords(segs: seq<seq<byte>>) {
    forall i | 0 <= i < |segs| :: Words(segs[i])
  }

  /** The packed form: the header and each segment are packed on their own, one behind the other. */
  ghost function PackedFrame(segs: seq<seq<byte>>): seq<byte>
    requires segs != [] && WholeWords(segs)
  {
    Pack(Header(Lens(segs))) + PackEach(segs)
  }

  // ---- what is read -----------------------------------------------------------------------

  /** Overrun: 1024 segments are announced, and the table read next is longer than the reader's buffer. */
  datatype Parsed = Bad | Overrun | Message(segs: seq<seq<byte>>)

  /** The sizes in bytes of the first n segments, if the reader accepts them. */
  datatype Table = Rejected | Accepted(ns: seq<nat>)

  function ReadTable(u: seq<byte>, n: nat): (t: Table)
    requires 4 + 4 * n <= |u|
    ensures t.Accepted? ==> |t.ns| == n
  {
    if n == 0 then Accepted([])
    else
      var t := ReadTable(u, n - 1);
      var w := Word(u, n);
      if t.Rejected? || w > MAX_WORDS || UINT32_MAX - Sum(t.ns) < w * 8 then Rejected
      else Accepted(t.ns + [w * 8])
  }

  function Split(b: seq<byte>, ns: seq<nat>): (segs: seq<seq<byte>>)
    requires Sum(ns) <= |b|
    ensures |segs| == |ns|
  {
    if ns == [] then []
    else
      var m := |ns| - 1;
      Split(b, ns[..m]) + [b[Sum(ns[..m])..Sum(ns)]]
  }

  function TableSize(segnum: nat): nat { 8 * (segnum / 2) + 4 }

  function Parse(u: seq<byte>): Parsed {
    if |u| < 4 || Word(u, 0) > MAX_SEGS - 1 then Bad
    else
      var segnum := Word(u, 0) + 1;
      if segnum == MAX_SEGS then Overrun
      else if |u| < 4 + TableSize(segnum) then Bad
      else ParseBody(ReadTable(u, segnum), u[4 + TableSize(segnum)..])
  }

  function ParseBody(t: Table, body: seq<byte>): Parsed {
    if t.Rejected? || |body| < Sum(t.ns) then Bad else Message(Split(body, t.ns))
  }

  /** A plain FILE does not deliver a message whose segments are all empty. */
  function Received(parsed: Parsed, plainFile: bool): Parsed {
    if plainFile && parsed.Message? && Sum(Lens(parsed.segs)) == 0 then Bad else parsed
  }

  /** Everything a packed or plain byte string holds. */
  function Content(b: seq<byte>, packed: bool): seq<byte> { if packed then Unpack(b) else b }

  // ---- the round trip ---------------------------------------------------------------------

  /** A segment size the reader accepts. */
  predicate Readable(n: nat) { n % 8 == 0 && n / 8 <= MAX_WORDS }

  /** What the reader's limits allow; the segment count can be at most 1023. */
  ghost predicate FitsReader(segs: seq<seq<byte>>) {
    && 1 <= |segs| < MAX_SEGS
    && (forall i | 0 <= i < |segs| :: Readable(|segs[i]|))
    && Sum(Lens(segs)) <= UINT32_MAX
  }

  lemma TableFitsBuffer(segnum: nat)
    requires 1 <= segnum <= MAX_SEGS
    ensures TableSize(segnum) <= 4 * MAX_SEGS <==> segnum < MAX_SEGS
  {
  }

  lemma {:induction false} ReadTableSound(u: seq<byte>, n: nat)
    requires 4 + 4 * n <= |u|
    ensures var t := ReadTable(u, n);
      t.Accepted? ==> Sum(t.ns) <= UINT32_MAX && forall i | 0 <= i < n :: Readable(t.ns[i])
  {
    if n > 0 {
      ReadTableSound(u, n - 1);
      hide Word, Readable;
      var t, prev := ReadTable(u, n), ReadTable(u, n - 1);
      if t.Accepted? {
        assert t.ns[..n - 1] == prev.ns;
        WordReadable(Word(u, n));
      }
    }
  }

  lemma WordReadable(w: nat)
    ensures w <= MAX_WORDS ==> Readable(w * 8)
  {
  }

  lemma {:induction false} SplitLens(b: seq<byte>, ns: seq<nat>)
    requires Sum(ns) <= |b|
    ensures Lens(Split(b, ns)) == ns
  {
    if ns != [] {
      SplitLens(b, ns[..|ns| - 1]);
      assert ns == ns[..|ns| - 1] + [ns[|ns| - 1]];
      var segs := Split(b, ns);
      forall i | 0 <= i < |ns| ensures |segs[i]| == ns[i] {
        if i < |ns| - 1 {
          assert |Split(b, ns[..|ns| - 1])[i]| == ns[..|ns| - 1][i];
        }
      }
    }
  }

  lemma SplitFits(body: seq<byte>, ns: seq<nat>)
    requires 1 <= |ns| < MAX_SEGS && Sum(ns) <= UINT32_MAX && Sum(ns) <= |body|
    requires forall i | 0 <= i < |ns| :: Readable(ns[i])
    ensures FitsReader(Split(body, ns))
  {
    SplitLens(body, ns);
    hide Split, Sum, Readable;
    var segs := Split(body, ns);
    forall i | 0 <= i < |segs| ensures Readable(|segs[i]|) {
      assert Lens(segs)[i] == ns[i];
    }
  }

  /** Whatever the reader accepts is within its limits. */
  lemma ParseFits(u: seq<byte>)
    ensures Parse(u).Message? ==> FitsReader(Parse(u).segs)
  {
    hide ReadTable, Split, Word, Sum, Readable, FitsReader, TableSize;
    if Parse(u).Message? {
      var n := Word(u, 0) + 1;
      TableEntries(n);
      ReadTableSound(u, n);
      SplitFits(u[4 + TableSize(n)..], ReadTable(u, n).ns);
    }
  }

  lemma TableEntries(n: nat)
    ensures 4 * n <= TableSize(n)
  {
  }

  lemma {:induction false} SizesAt(ns: seq<nat>, k: nat)
    requires k < |ns|
    ensures Sizes(ns)[4 * k..4 * k + 4] == LE32(ns[k] / 8)
  {
    var m := |ns| - 1;
    if k < m {
      SizesAt(ns[..m], k);
      assert Sizes(ns)[4 * k..4 * k + 4] == Sizes(ns[..m])[4 * k..4 * k + 4];
    } else {
      assert Sizes(ns)[4 * m..4 * m + 4] == LE32(ns[m] / 8);
    }
  }

  /** The entries of the table, as a reader sees them. */
  lemma HeaderWords(ns: seq<nat>, rest: seq<byte>)
    requires ns != []
    ensures var u := Header(ns) + rest;
      Word(u, 0) == (|ns| - 1) % 0x1_0000_0000 &&
      forall k | 1 <= k <= |ns| :: Word(u, k) == ns[k - 1] / 8 % 0x1_0000_0000
  {
    hide LE32, FromLE32, Sizes;
    var u := Header(ns) + rest;
    assert u[0..4] == LE32(|ns| - 1);
    LE32RoundTrip(|ns| - 1);
    forall k | 1 <= k <= |ns| ensures Word(u, k) == ns[k - 1] / 8 % 0x1_0000_0000 {
      SizesAt(ns, k - 1);
      LE32RoundTrip(ns[k - 1] / 8);
      assert u[4 * k..4 * k + 4] == Sizes(ns)[4 * (k - 1)..4 * (k - 1) + 4];
    }
  }

  lemma {:induction false} SumPrefix(ns: seq<nat>, n: nat)
    requires n <= |ns|
    ensures Sum(ns[..n]) <= Sum(ns)
    decreases |ns|
  {
    var m := |ns| - 1;
    if n < |ns| {
      SumPrefix(ns[..m], n);
      assert ns[..m][..n] == ns[..n];
    } else {
      assert ns[..n] == ns;
    }
  }

  lemma OneMore(ns: seq<nat>, n: nat)
    requires n < |ns|
    ensures ns[..n + 1] == ns[..n] + [ns[n]]
    ensures Sum(ns[..n + 1]) == Sum(ns[..n]) + ns[n] <= Sum(ns)
  {
    var next := ns[..n + 1];
    assert next[..n] == ns[..n];
    assert Sum(next) == Sum(ns[..n]) + ns[n];
    hide Sum;
    SumPrefix(ns, n + 1);
  }

  lemma {:induction false} ReadTableComplete(u: seq<byte>, ns: seq<nat>, n: nat)
    requires n <= |ns| && 4 + 4 * n <= |u| && Sum(ns) <= UINT32_MAX
    requires forall k | 1 <= k <= n :: Word(u, k) <= MAX_WORDS && Word(u, k) * 8 == ns[k - 1]
    ensures ReadTable(u, n) == Accepted(ns[..n])
  {
    hide Word, Sum;
    if n == 0 {
      assert ns[..0] == [];
    } else {
      ReadTableComplete(u, ns, n - 1);
      OneMore(ns, n - 1);
      assert Word(u, n) * 8 == ns[n - 1];
    }
  }

  lemma {:induction false} ConcatSnoc(segs: seq<seq<byte>>, s: seq<byte>)
    ensures Concat(segs + [s]) == Concat(segs) + s
  {
    if segs == [] {
      assert segs + [s] == [s];
    } else {
      ConcatSnoc(segs[1..], s);
      assert (segs + [s])[1..] == segs[1..] + [s];
      Regroup(segs[0], Concat(segs[1..]), s);
    }
  }

  /** Cutting a concatenation at the segments' lengths gives the segments back. */
  lemma {:induction false} SplitConcat(segs: seq<seq<byte>>, rest: seq<byte>)
    ensures |Concat(segs)| == Sum(Lens(segs))
    ensures Split(Concat(segs) + rest, Lens(segs)) == segs
    decreases |segs|
  {
    if segs != [] {
      var m := |segs| - 1;
      var init, s := segs[..m], segs[m];
      assert segs == init + [s];
      assert Lens(segs)[..m] == Lens(init);
      ConcatSnoc(init, s);
      SplitConcat(init, s + rest);
      Regroup(Concat(init), s, rest);
    }
  }

  /**
   The framing round trip: reading back a frame, whatever follows it, gives the same segments exactly
   when they are within the reader's limits.
   */
  lemma FramingRoundTrip(segs: seq<seq<byte>>, rest: seq<byte>)
    requires segs != []
    ensures Parse(Frame(segs) + rest) == Message(segs) <==> FitsReader(segs)
  {
    ParseFits(Frame(segs) + rest);
    if FitsReader(segs) {
      FramingReadsBack(segs, rest);
    }
  }

  /** From a plain FILE it gives the same segments exactly when they are not all empty, besides. */
  lemma FileRoundTrip(segs: seq<seq<byte>>, rest: seq<byte>)
    requires segs != []
    ensures Received(Parse(Frame(segs) + rest), true) == Message(segs) <==> FitsReader(segs) && Sum(Lens(segs)) > 0
  {
    FramingRoundTrip(segs, rest);
    hide Parse, Frame, Sum, Lens, FitsReader;
  }

  /** The failure at its smallest: one empty segment, a frame of eight zero bytes. */
  lemma EmptyFromFile()
    ensures Frame([[]]) == Zeros(8) && Parse(Zeros(8)) == Message([[]]) && Received(Parse(Zeros(8)), true) == Bad
  {
    var segs: seq<seq<byte>> := [[]];
    var ns := Lens(segs);
    assert ns == [0] by {
      assert segs[..0] == [];
      assert Lens(segs) == Lens(segs[..0]) + [0];
    }
    assert Sum(ns) == 0 by {
      assert ns[..0] == [];
    }
    EmptyFrame(ns);
    assert Frame(segs) == Zeros(8);
    assert Zeros(8) + [] == Zeros(8);
    FramingRoundTrip(segs, []);
    hide Parse;
  }

  lemma EmptyFrame(ns: seq<nat>)
    requires ns == [0]
    ensures Header(ns) == Zeros(8)
  {
    assert ns[..0] == [];
    assert LE32(0) == Zeros(4);
    assert Sizes(ns) == Zeros(4);
  }

  /**
   The other half at its input: a message of 1024 segments is written, but announces a table of 4100 bytes
   that the reader takes in with its buffer of 4096.
   */
  lemma FullTableOverruns(segs: seq<seq<byte>>, rest: seq<byte>)
    requires |segs| == MAX_SEGS
    ensures Parse(Frame(segs) + rest) == Overrun && TableSize(MAX_SEGS) == 4 * MAX_SEGS + 4
  {
    var ns := Lens(segs);
    assert Frame(segs) + rest == Header(ns) + (Concat(segs) + rest);
    HeaderWords(ns, Concat(segs) + rest);
    HeaderLong(|ns|);
    SmallMod(|ns| - 1);
    hide Header, Word, Concat, ReadTable;
  }

  lemma HeaderIsTable(segnum: nat)
    ensures HeaderSize(segnum) == 4 + TableSize(segnum)
  {
  }

  lemma ParseLong(u: seq<byte>, segnum: nat)
    requires |u| >= 4 && 1 <= segnum < MAX_SEGS && FromLE32(u[0..4]) == segnum - 1 && |u| >= 4 + TableSize(segnum)
    ensures 4 * segnum <= TableSize(segnum)
    ensures Parse(u) == ParseBody(ReadTable(u, segnum), u[4 + TableSize(segnum)..])
  {
    TableEntries(segnum);
    hide FromLE32, ReadTable, TableSize, ParseBody;
  }

  lemma ParseHeader(h: seq<byte>, body: seq<byte>, ns: seq<nat>)
    requires 1 <= |ns| < MAX_SEGS && |h| == HeaderSize(|ns|) >= 4 + 4 * |ns|
    requires Word(h + body, 0) == |ns| - 1 && ReadTable(h + body, |ns|) == Accepted(ns)
    requires Sum(ns) <= |body|
    ensures Parse(h + body) == Message(Split(body, ns))
  {
    HeaderIsTable(|ns|);
    ParseLong(h + body, |ns|);
    hide Parse, Word, ReadTable, Split, Sum, HeaderSize, TableSize;
    assert (h + body)[|h|..] == body;
  }

  lemma EntryReadsBack(n: nat)
    requires Readable(n)
    ensures n / 8 % 0x1_0000_0000 * 8 == n && n / 8 % 0x1_0000_0000 <= MAX_WORDS
  {
  }

  lemma HeaderLong(segnum: nat)
    ensures HeaderSize(segnum) >= 4 + 4 * segnum
  {
  }

  /** A table whose entries are readable sizes is accepted as it stands. */
  lemma TableReadsBack(ns: seq<nat>, u: seq<byte>)
    requires |u| >= 4 + 4 * |ns| && Sum(ns) <= UINT32_MAX
    requires forall i | 0 <= i < |ns| :: Readable(ns[i])
    requires forall k | 1 <= k <= |ns| :: Word(u, k) == ns[k - 1] / 8 % 0x1_0000_0000
    ensures ReadTable(u, |ns|) == Accepted(ns)
  {
    hide *;
    forall k | 1 <= k <= |ns| ensures Word(u, k) <= MAX_WORDS && Word(u, k) * 8 == ns[k - 1] {
      EntryReadsBack(ns[k - 1]);
    }
    ReadTableComplete(u, ns, |ns|);
    assert ns[..|ns|] == ns;
  }

  lemma HeaderParses(ns: seq<nat>, body: seq<byte>)
    requires 1 <= |ns| < MAX_SEGS && Sum(ns) <= UINT32_MAX && Sum(ns) <= |body|
    requires forall i | 0 <= i < |ns| :: Readable(ns[i])
    ensures Parse(Header(ns) + body) == Message(Split(body, ns))
  {
    assert |ns| < 1024;
    hide *;
    HeaderWords(ns, body);
    HeaderLong(|ns|);
    SmallMod(|ns| - 1);
    TableReadsBack(ns, Header(ns) + body);
    ParseHeader(Header(ns), body, ns);
  }

  lemma SmallMod(n: nat)
    requires n < 0x1_0000_0000
    ensures n % 0x1_0000_0000 == n
  {
  }

  lemma FramingReadsBack(segs: seq<seq<byte>>, rest: seq<byte>)
    requires FitsReader(segs)
    ensures Parse(Frame(segs) + rest) == Message(segs)
  {
    var ns := Lens(segs);
    hide Header, Concat, Split, Parse, Sum, Readable;
    forall i | 0 <= i < |ns| ensures Readable(ns[i]) {
      assert Readable(|segs[i]|);
    }
    SplitConcat(segs, rest);
    HeaderParses(ns, Concat(segs) + rest);
    Regroup(Header(ns), Concat(segs), rest);
  }

  /** The same for the packed form, where every segment has to be a whole number of words to begin with. */
  lemma PackedFramingRoundTrip(segs: seq<seq<byte>>, rest: seq<byte>)
    requires segs != [] && WholeWords(segs)
    ensures Unpack(PackedFrame(segs) + rest) == Frame(segs) + Unpack(rest)
    ensures Parse(Content(PackedFrame(segs) + rest, true)) == Message(segs) <==> FitsReader(segs)
  {
    var h := Header(Lens(segs));
    UnpackPack(h, PackEach(segs) + rest);
    UnpackPackEachThen(segs, rest);
    hide Unpack, Pack, PackEach, Header, Concat;
    Regroup(Pack(h), PackEach(segs), rest);
    Regroup(h, Concat(segs), Unpack(rest));
    FramingRoundTrip(segs, Unpack(rest));
  }
}
