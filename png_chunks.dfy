/** The chunk record and the two pure specifications every parser and
    serialiser here is proved against: ScanFrom (what a cursor scan accepts)
    and Encode (what a capacity-bounded rebuild writes). The layout is that
    of section 5.3 of the PNG specification: a big-endian length, a 4-octet
    type, the payload, and a big-endian CRC. */
module PngChunks {
  import opened PngBytes

  /** A chunk type: the four octets of `uint8_t type[4]`, in file order. */
  datatype Tag = Tag(o0: byte, o1: byte, o2: byte, o3: byte)

  /** The octets of a tag as they are written. */
  function TagBytes(t: Tag): (r: seq<byte>)
    ensures |r| == 4 && r[0] == t.o0 && r[1] == t.o1 && r[2] == t.o2 && r[3] == t.o3
  {
    [t.o0, t.o1, t.o2, t.o3]
  }

  /** The tag stored in buf[at..at + 4]. */
  function TagAt(buf: seq<byte>, at: nat): (t: Tag)
    requires at + 4 <= |buf|
    ensures TagBytes(t) == buf[at..at + 4]
  {
    Tag(buf[at], buf[at + 1], buf[at + 2], buf[at + 3])
  }

  /** Four octets that spell a tag read back as that tag. */
  lemma TagOfBytes(buf: seq<byte>, at: nat, t: Tag)
    requires at + 4 <= |buf| && buf[at..at + 4] == TagBytes(t)
    ensures TagAt(buf, at) == t
  {
    assert buf[at] == buf[at..at + 4][0] && buf[at + 1] == buf[at..at + 4][1];
    assert buf[at + 2] == buf[at..at + 4][2] && buf[at + 3] == buf[at..at + 4][3];
  }

  const IHDR: Tag := Tag(0x49, 0x48, 0x44, 0x52)
  const IDAT: Tag := Tag(0x49, 0x44, 0x41, 0x54)
  const IEND: Tag := Tag(0x49, 0x45, 0x4E, 0x44)

  /** calculate_crc: the CRC of a chunk's type tag followed by its payload.
      crc32 chained over the tag and then the payload is the CRC of their
      concatenation. */
  function ChunkCrc(ctype: Tag, payload: seq<byte>): (r: u32)
  {
    Crc32(TagBytes(ctype) + payload)
  }

  /** The 8-octet PNG signature (section 5.2). */
  const Signature: seq<byte> := [0x89, 0x50, 0x4E, 0x47, 0x0D, 0x0A, 0x1A, 0x0A]

  /** One chunk as the mutators hold it. `data` is the owned allocation:
      after a truncation `length` may be smaller than it, and only the first
      `length` octets are serialised. `forcedCrc` says that `crc` is written
      verbatim instead of being recomputed. */
  datatype ChunkRecord = Chunk(length: u32, ctype: Tag, data: seq<byte>, crc: u32, forcedCrc: bool)
  {
    predicate WellFormed()
    {
      length <= |data|
    }

    /** The octets that are serialised. */
    function Payload(): (r: seq<byte>)
      requires WellFormed()
    {
      data[..length]
    }

    /** The CRC the serialiser writes for this chunk. */
    function WireCrc(): (r: u32)
      requires WellFormed()
    {
      if forcedCrc then crc else ChunkCrc(ctype, Payload())
    }
  }

  /** A chunk whose length does not exceed its allocation. */
  type Chunk = c: ChunkRecord | c.WellFormed() witness Chunk(0, Tag(0, 0, 0, 0), [], 0, false)

  /** The serialised form of c with the given CRC field. */
  function Frame(c: Chunk, crc: u32): (r: seq<byte>)
    ensures |r| == 12 + c.length
  {
    Be32(c.length) + TagBytes(c.ctype) + c.Payload() + Be32(crc)
  }

  /** The octets rebuild_png writes for one chunk. */
  function EncodeChunk(c: Chunk): (r: seq<byte>)
    ensures |r| == 12 + c.length
  {
    Frame(c, c.WireCrc())
  }

  /** The octets one chunk occupied in the parsed input. */
  function StoredFrame(c: Chunk): (r: seq<byte>)
    ensures |r| == 12 + c.length
  {
    Frame(c, c.crc)
  }

  /** Two chunks that differ at most in the octets of their allocation. */
  predicate SameFraming(a: Chunk, b: Chunk)
  {
    a.length == b.length && a.ctype == b.ctype && a.crc == b.crc
    && a.forcedCrc == b.forcedCrc && |a.data| == |b.data|
  }

  /** The chunk both mutate_ihdr variants edit: an IHDR holding all 13
      header octets. */
  predicate IsIhdrTarget(c: Chunk)
  {
    c.ctype == IHDR && c.length >= 13
  }

  /** f applied to every element, the results back to back. */
  function Concat<T>(f: T -> seq<byte>, s: seq<T>): (r: seq<byte>)
  {
    if s == [] then [] else f(s[0]) + Concat(f, s[1..])
  }

  lemma {:induction false} ConcatAppend<T>(f: T -> seq<byte>, a: seq<T>, b: seq<T>)
    ensures Concat(f, a + b) == Concat(f, a) + Concat(f, b)
  {
    if a == [] {
      assert a + b == b;
    } else {
      assert (a + b)[0] == a[0];
      assert (a + b)[1..] == a[1..] + b;
      ConcatAppend(f, a[1..], b);
    }
  }

  lemma ConcatSnoc<T>(f: T -> seq<byte>, s: seq<T>, i: nat)
    requires i < |s|
    ensures Concat(f, s[..i + 1]) == Concat(f, s[..i]) + f(s[i])
  {
    assert s[..i + 1] == s[..i] + [s[i]];
    ConcatAppend(f, s[..i], [s[i]]);
    assert Concat(f, [s[i]]) == f(s[i]) + Concat(f, []);
  }

  /** The serialised size of a chunk list: 12 octets of framing plus the
      payload length, per chunk. */
  function Size(cs: seq<Chunk>): (n: nat)
  {
    if cs == [] then 0 else 12 + cs[0].length + Size(cs[1..])
  }

  lemma {:induction false} SizeOfEncoded(cs: seq<Chunk>)
    ensures |Concat(EncodeChunk, cs)| == Size(cs)
  {
    if cs != [] { SizeOfEncoded(cs[1..]); }
  }

  lemma {:induction false} SizeOfStored(cs: seq<Chunk>)
    ensures |Concat(StoredFrame, cs)| == Size(cs)
  {
    if cs != [] { SizeOfStored(cs[1..]); }
  }

  /** Every chunk's frame is part of the list's size. */
  lemma {:induction false} SizeCovers(cs: seq<Chunk>, i: nat)
    requires i < |cs|
    ensures 12 + cs[i].length <= Size(cs)
  {
    if i > 0 {
      assert cs[1..][i - 1] == cs[i];
      SizeCovers(cs[1..], i - 1);
    }
  }

  lemma SizeSnoc(cs: seq<Chunk>, i: nat)
    requires i < |cs|
    ensures Size(cs[..i + 1]) == Size(cs[..i]) + 12 + cs[i].length
  {
    SizeOfEncoded(cs[..i + 1]);
    SizeOfEncoded(cs[..i]);
    ConcatSnoc(EncodeChunk, cs, i);
  }

  /** How many leading chunks fit, one after the other, in `room` octets. */
  function FitCount(cs: seq<Chunk>, room: nat): (k: nat)
    ensures k <= |cs|
  {
    if cs == [] || 12 + cs[0].length > room then 0
    else 1 + FitCount(cs[1..], room - (12 + cs[0].length))
  }

  /** The first i chunks fit in `room` exactly when i does not exceed FitCount:
      the fitting prefix stops at the first chunk that does not fit. */
  lemma {:induction false} FitCountBound(cs: seq<Chunk>, room: nat, i: nat)
    requires i <= |cs|
    ensures i <= FitCount(cs, room) <==> Size(cs[..i]) <= room
  {
    if i > 0 {
      assert cs[..i][0] == cs[0];
      assert cs[..i][1..] == cs[1..][..i - 1];
      if 12 + cs[0].length <= room {
        FitCountBound(cs[1..], room - (12 + cs[0].length), i - 1);
      }
    }
  }

  function EncodeAll(cs: seq<Chunk>): (r: seq<byte>)
  {
    Concat(EncodeChunk, cs)
  }

  /** What rebuild_png leaves in an output buffer of capacity maxSize: the
      signature, then the chunks in order while the next one fits. */
  function Encode(cs: seq<Chunk>, maxSize: nat): (r: seq<byte>)
  {
    if maxSize < 8 then [] else Signature + EncodeAll(cs[..FitCount(cs, maxSize - 8)])
  }

  /** Encode never writes past the capacity, writes nothing when the
      signature does not fit, and otherwise starts with the signature. */
  lemma EncodeBounds(cs: seq<Chunk>, maxSize: nat)
    ensures |Encode(cs, maxSize)| <= maxSize
    ensures Encode(cs, maxSize) == [] <==> maxSize < 8
    ensures maxSize >= 8 ==> |Encode(cs, maxSize)| >= 8 && Encode(cs, maxSize)[..8] == Signature
  {
    if maxSize >= 8 {
      var k := FitCount(cs, maxSize - 8);
      FitCountBound(cs, maxSize - 8, k);
      SizeOfEncoded(cs[..k]);
    }
  }

  /** With enough capacity the whole list is written. */
  lemma EncodeFits(cs: seq<Chunk>, maxSize: nat)
    requires 8 + Size(cs) <= maxSize
    ensures Encode(cs, maxSize) == Signature + EncodeAll(cs)
  {
    FitCountAll(cs, maxSize - 8);
    assert cs[..|cs|] == cs;
  }

  /** Every chunk fits when the whole list does. */
  lemma {:induction false} FitCountAll(cs: seq<Chunk>, room: nat)
    requires Size(cs) <= room
    ensures FitCount(cs, room) == |cs|
  {
    if cs != [] {
      FitCountAll(cs[1..], room - (12 + cs[0].length));
    }
  }

  /** One step of a rebuild loop that has written the first i chunks: the
      next one fits exactly when it is still within FitCount, and writing it
      extends the output by its frame. */
  lemma EncodeStep(cs: seq<Chunk>, room: nat, i: nat)
    requires i < |cs| && i <= FitCount(cs, room)
    ensures Size(cs[..i + 1]) == Size(cs[..i]) + 12 + cs[i].length
    ensures i + 1 <= FitCount(cs, room) <==> Size(cs[..i]) + 12 + cs[i].length <= room
  {
    SizeSnoc(cs, i);
    FitCountBound(cs, room, i + 1);
  }

  /** The output after writing chunk i with the CRC rebuild_png chooses. */
  lemma EncodeExtend(cs: seq<Chunk>, i: nat, written: seq<byte>, crc: u32)
    requires i < |cs| && written == Signature + EncodeAll(cs[..i])
    requires crc == if cs[i].forcedCrc then cs[i].crc else ChunkCrc(cs[i].ctype, cs[i].Payload())
    ensures written + Frame(cs[i], crc) == Signature + EncodeAll(cs[..i + 1])
  {
    assert Frame(cs[i], crc) == EncodeChunk(cs[i]);
    ConcatSnoc(EncodeChunk, cs, i);
    AppendAssoc(Signature, EncodeAll(cs[..i]), EncodeChunk(cs[i]));
  }

  /** A rebuild loop that stopped after FitCount chunks has written Encode. */
  lemma EncodeDone(cs: seq<Chunk>, maxSize: nat, i: nat)
    requires maxSize >= 8 && i == FitCount(cs, maxSize - 8)
    ensures Encode(cs, maxSize) == Signature + EncodeAll(cs[..i])
    ensures |Encode(cs, maxSize)| == 8 + Size(cs[..i]) <= maxSize
  {
    SizeOfEncoded(cs[..i]);
    FitCountBound(cs, maxSize - 8, i);
  }

  /** A frame of at most `cap` payload octets starts at pos and fits in buf. */
  predicate FrameFits(buf: seq<byte>, pos: nat, cap: nat)
  {
    pos + 12 <= |buf| && ReadBe32(buf, pos) <= cap && pos + 12 + ReadBe32(buf, pos) <= |buf|
  }

  /** The chunk whose frame starts at pos, its CRC field kept verbatim. */
  function ChunkAt(buf: seq<byte>, pos: nat): (c: Chunk)
    requires pos + 12 <= |buf| && pos + 12 + ReadBe32(buf, pos) <= |buf|
    ensures |c.data| == c.length && !c.forcedCrc
  {
    var len := ReadBe32(buf, pos);
    Chunk(len, TagAt(buf, pos + 4), buf[pos + 8..pos + 8 + len], ReadBe32(buf, pos + 8 + len), false)
  }

  /** The chunks a scan from `pos` accepts: it stops in front of the first
      frame whose declared length exceeds `cap` or that does not fit in the
      buffer, and right after an IEND chunk. */
  function ScanFrom(buf: seq<byte>, pos: nat, cap: nat): (cs: seq<Chunk>)
    decreases |buf| - pos
  {
    if !FrameFits(buf, pos, cap) then []
    else
      var c := ChunkAt(buf, pos);
      if c.ctype == IEND then [c] else [c] + ScanFrom(buf, pos + 12 + c.length, cap)
  }

  /** IEND, if present, is the last chunk. */
  predicate IendOnlyLast(cs: seq<Chunk>)
  {
    forall i :: 0 <= i < |cs| - 1 ==> cs[i].ctype != IEND
  }

  /** Each chunk as a parser reads it: its CRC field kept, exactly `length`
      octets owned, the length within the cap. */
  predicate AsRead(cs: seq<Chunk>, cap: nat)
  {
    forall i :: 0 <= i < |cs| ==> !cs[i].forcedCrc && |cs[i].data| == cs[i].length <= cap
  }

  /** Every scanned chunk has its CRC kept, owns exactly `length` octets,
      has a length within the cap, and only the last can be IEND. */
  lemma {:induction false} ScanFromShape(buf: seq<byte>, pos: nat, cap: nat)
    ensures AsRead(ScanFrom(buf, pos, cap), cap)
    ensures IendOnlyLast(ScanFrom(buf, pos, cap))
    decreases |buf| - pos
  {
    if FrameFits(buf, pos, cap) {
      var c := ChunkAt(buf, pos);
      var next := pos + 12 + c.length;
      ScanStep(buf, pos, cap, next);
      if c.ctype != IEND {
        ScanFromShape(buf, next, cap);
        ShapeCons(c, ScanFrom(buf, next, cap), cap);
      } else {
        assert AsRead([c], cap);
      }
    }
  }

  /** A chunk read from the input in front of a non-final rest. */
  lemma ShapeCons(c: Chunk, rest: seq<Chunk>, cap: nat)
    requires !c.forcedCrc && |c.data| == c.length <= cap && c.ctype != IEND
    requires AsRead(rest, cap) && IendOnlyLast(rest)
    ensures AsRead([c] + rest, cap) && IendOnlyLast([c] + rest)
  {
    var cs := [c] + rest;
    forall i | 1 <= i < |cs|
      ensures cs[i] == rest[i - 1]
    {
    }
  }

  /** One step of the scan, stated on its own so the lemmas below use it
      without unfolding the scan. */
  lemma ScanStep(buf: seq<byte>, pos: nat, cap: nat, next: nat)
    requires FrameFits(buf, pos, cap) && next == pos + 12 + ReadBe32(buf, pos)
    ensures ChunkAt(buf, pos).ctype == IEND ==> ScanFrom(buf, pos, cap) == [ChunkAt(buf, pos)]
    ensures ChunkAt(buf, pos).ctype != IEND ==>
      ScanFrom(buf, pos, cap) == [ChunkAt(buf, pos)] + ScanFrom(buf, next, cap)
  {
  }

  /** The chunk a parser builds from the fields at pos is ChunkAt(buf, pos);
      an empty payload is the empty allocation. */
  lemma ReadChunkIs(buf: seq<byte>, pos: nat, length: u32, data: seq<byte>)
    requires pos + 12 <= |buf| && length == ReadBe32(buf, pos) && pos + 12 + length <= |buf|
    requires data == if length > 0 then buf[pos + 8..pos + 8 + length] else []
    ensures Chunk(length, TagAt(buf, pos + 4), data, ReadBe32(buf, pos + 8 + length), false) == ChunkAt(buf, pos)
  {
  }

  /** A scan in front of a frame that does not fit accepts nothing. */
  lemma ScanStops(buf: seq<byte>, pos: nat, cap: nat)
    requires !FrameFits(buf, pos, cap)
    ensures ScanFrom(buf, pos, cap) == []
  {
  }

  /** A cursor loop that has collected acc and accepts the frame at pos:
      after an IEND it has the whole scan, otherwise it continues after
      the frame. */
  lemma ScanAdvance(buf: seq<byte>, pos: nat, cap: nat, next: nat, c: Chunk, acc: seq<Chunk>, full: seq<Chunk>)
    requires FrameFits(buf, pos, cap) && next == pos + 12 + ReadBe32(buf, pos) && c == ChunkAt(buf, pos)
    requires acc + ScanFrom(buf, pos, cap) == full
    ensures c.ctype == IEND ==> acc + [c] == full
    ensures c.ctype != IEND ==> (acc + [c]) + ScanFrom(buf, next, cap) == full
  {
    ScanStep(buf, pos, cap, next);
    if c.ctype != IEND {
      AppendAssoc(acc, [c], ScanFrom(buf, next, cap));
    }
  }

  lemma AppendAssoc<T>(a: seq<T>, b: seq<T>, c: seq<T>)
    ensures a + (b + c) == (a + b) + c
  {
  }

  /** A parsed frame, written back with its stored CRC, is the input's octets. */
  lemma StoredFrameOfChunkAt(buf: seq<byte>, pos: nat)
    requires pos + 12 <= |buf| && pos + 12 + ReadBe32(buf, pos) <= |buf|
    ensures StoredFrame(ChunkAt(buf, pos)) == buf[pos..pos + 12 + ReadBe32(buf, pos)]
  {
    var len := ReadBe32(buf, pos);
    Be32OfRead(buf, pos);
    Be32OfRead(buf, pos + 8 + len);
    var c := ChunkAt(buf, pos);
    assert c.Payload() == buf[pos + 8..pos + 8 + len];
    assert TagBytes(c.ctype) == buf[pos + 4..pos + 8];
    assert buf[pos..pos + 12 + len]
        == buf[pos..pos + 4] + buf[pos + 4..pos + 8] + buf[pos + 8..pos + 8 + len] + buf[pos + 8 + len..pos + 12 + len];
  }

  lemma Slices4(a: seq<byte>, b: seq<byte>, c: seq<byte>, d: seq<byte>)
    ensures (a + b + c + d)[..|a|] == a
    ensures (a + b + c + d)[|a|..|a| + |b|] == b
    ensures (a + b + c + d)[|a| + |b|..|a| + |b| + |c|] == c
    ensures (a + b + c + d)[|a| + |b| + |c|..] == d
  {
    var abc := a + b + c;
    var e := abc + d;
    assert e[..|abc|] == abc && e[|abc|..] == d;
    assert abc[..|a| + |b|] == a + b && abc[|a| + |b|..] == c;
    assert (a + b)[..|a|] == a && (a + b)[|a|..] == b;
    assert e[..|a|] == abc[..|a|] == (a + b)[..|a|];
    assert e[|a|..|a| + |b|] == abc[|a|..|a| + |b|] == (a + b)[|a|..];
    assert e[|a| + |b|..|abc|] == abc[|a| + |b|..];
  }

  lemma SliceOfSlice(buf: seq<byte>, pos: nat, n: nat, i: nat, j: nat)
    requires pos + n <= |buf| && i <= j <= n
    ensures buf[pos..pos + n][i..j] == buf[pos + i..pos + j]
  {
    var s := buf[pos..pos + n];
    forall t | 0 <= t < j - i
      ensures s[i..j][t] == buf[pos + i..pos + j][t]
    {
      assert s[i..j][t] == s[i + t] == buf[pos + i + t];
    }
  }

  lemma SliceSplit(buf: seq<byte>, i: nat, j: nat, k: nat)
    requires i <= j <= k <= |buf|
    ensures buf[i..k] == buf[i..j] + buf[j..k]
  {
  }

  /** A scan that produced cs and reached `end` stopped for one of its two
      reasons: the last chunk was IEND, or no frame fits at `end`. */
  predicate StopsAt(buf: seq<byte>, end: nat, cap: nat, cs: seq<Chunk>)
  {
    (|cs| > 0 && cs[|cs| - 1].ctype == IEND) || !FrameFits(buf, end, cap)
  }

  lemma StopsAtCons(buf: seq<byte>, end: nat, cap: nat, c: Chunk, rest: seq<Chunk>)
    requires StopsAt(buf, end, cap, rest)
    ensures StopsAt(buf, end, cap, [c] + rest)
  {
    var cs := [c] + rest;
    if rest != [] {
      assert cs[|cs| - 1] == rest[|rest| - 1];
    }
  }

  /** Prepending one frame to a run of frames that lie in the buffer. */
  lemma VerbatimStep<T>(f: T -> seq<byte>, buf: seq<byte>, pos: nat, next: nat, k: nat, c: T, rest: seq<T>)
    requires pos <= next && next + k <= |buf| && k == |Concat(f, rest)|
    requires buf[pos..next] == f(c)
    requires buf[next..next + k] == Concat(f, rest)
    ensures buf[pos..next + k] == Concat(f, [c] + rest)
  {
    var cs := [c] + rest;
    assert cs[0] == c && cs[1..] == rest;
    assert Concat(f, cs) == f(c) + Concat(f, rest);
    SliceSplit(buf, pos, next, next + k);
  }

  /** The chunks cs, scanned from pos, end inside the buffer at a place
      where the scan stops. */
  predicate Inside(buf: seq<byte>, pos: nat, cap: nat, cs: seq<Chunk>)
  {
    pos + Size(cs) <= |buf| && StopsAt(buf, pos + Size(cs), cap, cs)
  }

  /** The claim of ScanInside for one scan position. */
  predicate InsideFrom(buf: seq<byte>, pos: nat, cap: nat)
  {
    Inside(buf, pos, cap, ScanFrom(buf, pos, cap))
  }

  /** The scan step of ScanInside: one more frame in front of a rest that
      stays inside and stops at the same place. */
  lemma InsideHead(buf: seq<byte>, pos: nat, cap: nat, next: nat)
    requires FrameFits(buf, pos, cap) && next == pos + 12 + ReadBe32(buf, pos)
    requires ChunkAt(buf, pos).ctype == IEND || InsideFrom(buf, next, cap)
    ensures InsideFrom(buf, pos, cap)
  {
    if ChunkAt(buf, pos).ctype == IEND {
      InsideAtEnd(buf, pos, cap, next);
    } else {
      InsideAtNext(buf, pos, cap, next);
    }
  }

  lemma InsideAtEnd(buf: seq<byte>, pos: nat, cap: nat, next: nat)
    requires FrameFits(buf, pos, cap) && next == pos + 12 + ReadBe32(buf, pos)
    requires ChunkAt(buf, pos).ctype == IEND
    ensures InsideFrom(buf, pos, cap)
  {
    ScanStep(buf, pos, cap, next);
    InsideLast(buf, next, cap, ChunkAt(buf, pos));
  }

  lemma InsideAtNext(buf: seq<byte>, pos: nat, cap: nat, next: nat)
    requires FrameFits(buf, pos, cap) && next == pos + 12 + ReadBe32(buf, pos)
    requires ChunkAt(buf, pos).ctype != IEND && InsideFrom(buf, next, cap)
    ensures InsideFrom(buf, pos, cap)
  {
    ScanStep(buf, pos, cap, next);
    InsideCons(buf, pos, cap, next, ChunkAt(buf, pos), ScanFrom(buf, next, cap));
  }

  /** A lone IEND chunk: its size, and a reason to stop wherever it ends. */
  lemma InsideLast(buf: seq<byte>, end: nat, cap: nat, c: Chunk)
    requires c.ctype == IEND
    ensures Size([c]) == 12 + c.length && StopsAt(buf, end, cap, [c])
  {
    assert [c][1..] == [];
  }

  /** One frame in front of a rest that stays inside and stops. */
  lemma InsideCons(buf: seq<byte>, pos: nat, cap: nat, next: nat, c: Chunk, rest: seq<Chunk>)
    requires next == pos + 12 + c.length
    requires Inside(buf, next, cap, rest)
    ensures Inside(buf, pos, cap, [c] + rest)
  {
    var cs := [c] + rest;
    assert cs[0] == c && cs[1..] == rest;
    assert Size(cs) == 12 + c.length + Size(rest);
    StopsAtCons(buf, next + Size(rest), cap, c, rest);
  }

  /** The scan stays inside the buffer and stops for one of its two reasons:
      after IEND, or in front of a frame that does not fit. */
  lemma {:induction false} ScanInside(buf: seq<byte>, pos: nat, cap: nat)
    requires pos <= |buf|
    ensures InsideFrom(buf, pos, cap)
    decreases |buf| - pos
  {
    if !FrameFits(buf, pos, cap) {
      assert ScanFrom(buf, pos, cap) == [];
    } else {
      var next: nat := pos + 12 + ReadBe32(buf, pos);
      if ChunkAt(buf, pos).ctype != IEND {
        ScanInside(buf, next, cap);
      }
      InsideHead(buf, pos, cap, next);
    }
  }

  /** The claim of ScanIsVerbatim for one scan position. */
  predicate VerbatimFrom(buf: seq<byte>, pos: nat, cap: nat)
  {
    pos + Size(ScanFrom(buf, pos, cap)) <= |buf|
    && buf[pos..pos + Size(ScanFrom(buf, pos, cap))] == Concat(StoredFrame, ScanFrom(buf, pos, cap))
  }

  /** The scan step of ScanIsVerbatim: a verbatim frame in front of a
      verbatim rest. */
  lemma VerbatimHead(buf: seq<byte>, pos: nat, cap: nat, next: nat)
    requires FrameFits(buf, pos, cap) && next == pos + 12 + ReadBe32(buf, pos)
    requires ChunkAt(buf, pos).ctype == IEND || VerbatimFrom(buf, next, cap)
    ensures VerbatimFrom(buf, pos, cap)
  {
    var c := ChunkAt(buf, pos);
    ScanStep(buf, pos, cap, next);
    StoredFrameOfChunkAt(buf, pos);
    assert buf[pos..next] == StoredFrame(c);
    var rest := if c.ctype == IEND then [] else ScanFrom(buf, next, cap);
    assert ScanFrom(buf, pos, cap) == [c] + rest;
    SizeOfStored(rest);
    var k := Size(rest);
    VerbatimStep(StoredFrame, buf, pos, next, k, c, rest);
    var cs := [c] + rest;
    assert cs[0] == c && cs[1..] == rest;
    assert Size(cs) == 12 + c.length + k;
  }

  /** Every accepted chunk was read verbatim from the input: writing the
      accepted chunks back with their stored CRCs reproduces the scanned part
      of the buffer. */
  lemma {:induction false} ScanIsVerbatim(buf: seq<byte>, pos: nat, cap: nat)
    requires pos <= |buf|
    ensures VerbatimFrom(buf, pos, cap)
    decreases |buf| - pos
  {
    if !FrameFits(buf, pos, cap) {
      assert ScanFrom(buf, pos, cap) == [];
    } else {
      var next: nat := pos + 12 + ReadBe32(buf, pos);
      if ChunkAt(buf, pos).ctype != IEND {
        ScanIsVerbatim(buf, next, cap);
      }
      VerbatimHead(buf, pos, cap, next);
    }
  }

  /** A chunk as it reads back after being serialised: its payload trimmed
      to `length`, its CRC the one that was written, its flag clear. */
  function Normalize(c: Chunk): (n: Chunk)
    ensures n.length == c.length && n.ctype == c.ctype && n.Payload() == c.Payload()
    ensures n.crc == c.WireCrc() && !n.forcedCrc
    ensures StoredFrame(n) == EncodeChunk(c)
    ensures !c.forcedCrc ==> EncodeChunk(n) == EncodeChunk(c)
  {
    Chunk(c.length, c.ctype, c.Payload(), c.WireCrc(), false)
  }

  function Normalized(cs: seq<Chunk>): (r: seq<Chunk>)
    ensures |r| == |cs|
    ensures forall i :: 0 <= i < |cs| ==> r[i] == Normalize(cs[i])
  {
    if cs == [] then [] else [Normalize(cs[0])] + Normalized(cs[1..])
  }

  /** The four fields of a frame stored at pos. */
  lemma FrameSlices(buf: seq<byte>, pos: nat, c: Chunk, crc: u32)
    requires pos + 12 + c.length <= |buf| && buf[pos..pos + 12 + c.length] == Frame(c, crc)
    ensures buf[pos..pos + 4] == Be32(c.length)
    ensures buf[pos + 4..pos + 8] == TagBytes(c.ctype)
    ensures buf[pos + 8..pos + 8 + c.length] == c.Payload()
    ensures buf[pos + 8 + c.length..pos + 12 + c.length] == Be32(crc)
  {
    var len: nat := c.length;
    var f := Frame(c, crc);
    Slices4(Be32(len), TagBytes(c.ctype), c.Payload(), Be32(crc));
    assert f[..4] == Be32(len);
    assert f[4..8] == TagBytes(c.ctype);
    assert f[8..8 + len] == c.Payload();
    assert f[8 + len..] == Be32(crc);
    SliceOfSlice(buf, pos, 12 + len, 0, 4);
    SliceOfSlice(buf, pos, 12 + len, 4, 8);
    SliceOfSlice(buf, pos, 12 + len, 8, 8 + len);
    SliceOfSlice(buf, pos, 12 + len, 8 + len, 12 + len);
    assert f[..4] == f[0..4];
    assert f[8 + len..] == f[8 + len..12 + len];
  }

  /** Reading back the frame rebuild_png writes for c gives Normalize(c). */
  lemma ChunkAtEncoded(buf: seq<byte>, pos: nat, c: Chunk)
    requires pos + 12 + c.length <= |buf| && buf[pos..pos + 12 + c.length] == EncodeChunk(c)
    ensures ReadBe32(buf, pos) == c.length
    ensures ChunkAt(buf, pos) == Normalize(c)
  {
    var len: nat, crc := c.length, c.WireCrc();
    FrameSlices(buf, pos, c, crc);
    ReadBe32Local(buf, pos, Be32(len));
    ReadOfBe32(len);
    TagOfBytes(buf, pos + 4, c.ctype);
    ReadBe32Local(buf, pos + 8 + len, Be32(crc));
    ReadOfBe32(crc);
  }

  /** Scanning what EncodeAll wrote gives back every chunk, normalised,
      provided no length exceeds the cap and IEND is at most the last chunk. */
  lemma {:induction false} ScanOfEncoded(prefix: seq<byte>, cs: seq<Chunk>, cap: nat)
    requires forall i :: 0 <= i < |cs| ==> cs[i].length <= cap
    requires IendOnlyLast(cs)
    ensures ScanFrom(prefix + EncodeAll(cs), |prefix|, cap) == Normalized(cs)
    decreases |cs|
  {
    var buf := prefix + EncodeAll(cs);
    var pos := |prefix|;
    if cs == [] {
      assert buf == prefix;
    } else {
      var c := cs[0];
      var front := prefix + EncodeChunk(c);
      EncodedFront(prefix, cs, cap);
      ScanStep(buf, pos, cap, |front|);
      TailOfEncodable(cs, cap);
      assert Normalized(cs) == [Normalize(c)] + Normalized(cs[1..]);
      if c.ctype != IEND {
        ScanOfEncoded(front, cs[1..], cap);
      }
    }
  }

  /** The first frame of an encoding that follows a prefix reads back as
      its normalised chunk. */
  lemma EncodedFront(prefix: seq<byte>, cs: seq<Chunk>, cap: nat)
    requires cs != [] && cs[0].length <= cap
    ensures var buf, pos := prefix + EncodeAll(cs), |prefix|;
      && buf == (prefix + EncodeChunk(cs[0])) + EncodeAll(cs[1..])
      && FrameFits(buf, pos, cap) && pos + 12 + ReadBe32(buf, pos) == |prefix + EncodeChunk(cs[0])|
      && ChunkAt(buf, pos) == Normalize(cs[0])
  {
    var c, e, tail := cs[0], EncodeChunk(cs[0]), EncodeAll(cs[1..]);
    assert EncodeAll(cs) == e + tail;
    var buf := prefix + EncodeAll(cs);
    AppendAssoc(prefix, e, tail);
    assert buf[|prefix|..|prefix| + 12 + c.length] == e;
    ChunkAtEncoded(buf, |prefix|, c);
  }

  /** The rest of a list that could be encoded and scanned back can be too;
      a leading IEND is the only chunk. */
  lemma TailOfEncodable(cs: seq<Chunk>, cap: nat)
    requires cs != [] && IendOnlyLast(cs)
    requires forall i :: 0 <= i < |cs| ==> cs[i].length <= cap
    ensures forall i :: 0 <= i < |cs[1..]| ==> cs[1..][i].length <= cap
    ensures IendOnlyLast(cs[1..])
    ensures cs[0].ctype == IEND ==> cs[1..] == []
  {
    forall i | 0 <= i < |cs[1..]|
      ensures cs[1..][i].length <= cap
    {
      assert cs[1..][i] == cs[i + 1];
    }
    forall i | 0 <= i < |cs[1..]| - 1
      ensures cs[1..][i].ctype != IEND
    {
      assert cs[1..][i] == cs[i + 1];
    }
  }

  /** A whole rebuild, signature first, scans back from offset 8 to the
      normalised chunks. */
  lemma ScanOfRebuild(cs: seq<Chunk>, cap: nat)
    requires forall i :: 0 <= i < |cs| ==> cs[i].length <= cap
    requires IendOnlyLast(cs)
    ensures var buf := Signature + EncodeAll(cs);
      |buf| >= 8 && buf[..8] == Signature && ScanFrom(buf, 8, cap) == Normalized(cs)
  {
    var buf := Signature + EncodeAll(cs);
    assert buf[..8] == Signature;
    ScanOfEncoded(Signature, cs, cap);
  }

  /** A rebuild with room for every chunk scans back from offset 8 to the
      normalised chunks. */
  lemma ScanOfFittingRebuild(cs: seq<Chunk>, maxSize: nat, cap: nat)
    requires 8 + Size(cs) <= maxSize
    requires forall i :: 0 <= i < |cs| ==> cs[i].length <= cap
    requires IendOnlyLast(cs)
    ensures var buf := Encode(cs, maxSize);
      |buf| >= 8 && buf[..8] == Signature && ScanFrom(buf, 8, cap) == Normalized(cs)
  {
    EncodeFits(cs, maxSize);
    ScanOfRebuild(cs, cap);
  }

  /** A chunk whose CRC is not forced serialises the same once normalised. */
  lemma {:induction false} EncodeNormalized(cs: seq<Chunk>)
    requires forall i :: 0 <= i < |cs| ==> !cs[i].forcedCrc
    ensures EncodeAll(Normalized(cs)) == EncodeAll(cs)
    ensures Size(Normalized(cs)) == Size(cs)
  {
    if cs != [] {
      var n := Normalized(cs);
      assert EncodeChunk(n[0]) == EncodeChunk(cs[0]);
      assert n[1..] == Normalized(cs[1..]);
      EncodeNormalized(cs[1..]);
    }
  }

  /** Normalising keeps every length, so the same chunks fit. */
  lemma {:induction false} FitCountNormalized(cs: seq<Chunk>, room: nat)
    ensures FitCount(Normalized(cs), room) == FitCount(cs, room)
  {
    if cs != [] {
      assert Normalized(cs)[1..] == Normalized(cs[1..]);
      if 12 + cs[0].length <= room {
        FitCountNormalized(cs[1..], room - (12 + cs[0].length));
      }
    }
  }

  lemma NormalizedPrefix(cs: seq<Chunk>, k: nat)
    requires k <= |cs|
    ensures Normalized(cs)[..k] == Normalized(cs[..k])
  {
  }

  /** Rebuilding what a rebuild reads back as writes the same octets again,
      at every capacity, when no CRC is forced. */
  lemma EncodeOfReadBack(cs: seq<Chunk>, maxSize: nat)
    requires forall i :: 0 <= i < |cs| ==> !cs[i].forcedCrc
    ensures Encode(Normalized(cs), maxSize) == Encode(cs, maxSize)
  {
    if maxSize >= 8 {
      var n, k := Normalized(cs), FitCount(cs, maxSize - 8);
      FitCountNormalized(cs, maxSize - 8);
      NormalizedPrefix(cs, k);
      EncodeNormalized(cs[..k]);
      assert Encode(n, maxSize) == Signature + EncodeAll(n[..k]);
    }
  }

  /** Removing the element at k (the memmove that closes the gap). */
  function RemoveAt<T>(s: seq<T>, k: nat): (r: seq<T>)
    requires k < |s|
    ensures |r| == |s| - 1
    ensures forall j :: 0 <= j < k ==> r[j] == s[j]
    ensures forall j :: k <= j < |r| ==> r[j] == s[j + 1]
  {
    s[..k] + s[k + 1..]
  }

  /** Inserting x at k, shifting s[k..] up by one. */
  function InsertAt<T>(s: seq<T>, k: nat, x: T): (r: seq<T>)
    requires k <= |s|
    ensures |r| == |s| + 1
    ensures r[k] == x
    ensures forall j :: 0 <= j < k ==> r[j] == s[j]
    ensures forall j :: k <= j < |s| ==> r[j + 1] == s[j]
  {
    s[..k] + [x] + s[k..]
  }

  /** The index of the first chunk that satisfies p, or |cs| if none does. */
  function FindFirst(cs: seq<Chunk>, p: Chunk -> bool): (k: nat)
    ensures k <= |cs|
    ensures k < |cs| ==> p(cs[k])
    ensures forall j :: 0 <= j < k ==> !p(cs[j])
  {
    if cs == [] then 0 else if p(cs[0]) then 0 else 1 + FindFirst(cs[1..], p)
  }

  /** The index of the last chunk that satisfies p, if any. */
  function FindLast(cs: seq<Chunk>, p: Chunk -> bool): (r: Option<nat>)
    ensures r.Some? ==> r.value < |cs| && p(cs[r.value])
    ensures r.Some? ==> forall j :: r.value < j < |cs| ==> !p(cs[j])
    ensures r.None? ==> forall j :: 0 <= j < |cs| ==> !p(cs[j])
  {
    if cs == [] then None
    else if p(cs[|cs| - 1]) then Some(|cs| - 1)
    else FindLast(cs[..|cs| - 1], p)
  }

  /** FindFirst gives i when cs[i] is the first chunk that satisfies p. */
  lemma {:induction false} FindFirstIs(cs: seq<Chunk>, p: Chunk -> bool, i: nat)
    requires i < |cs| && p(cs[i])
    requires forall j :: 0 <= j < i ==> !p(cs[j])
    ensures FindFirst(cs, p) == i
  {
    if i > 0 {
      forall j | 0 <= j < i - 1
        ensures !p(cs[1..][j])
      {
        assert cs[1..][j] == cs[j + 1];
      }
      FindFirstIs(cs[1..], p, i - 1);
    }
  }

  /** FindFirst gives |cs| when no chunk satisfies p. */
  lemma {:induction false} FindFirstNone(cs: seq<Chunk>, p: Chunk -> bool)
    requires forall j :: 0 <= j < |cs| ==> !p(cs[j])
    ensures FindFirst(cs, p) == |cs|
  {
    if cs != [] {
      forall j | 0 <= j < |cs| - 1
        ensures !p(cs[1..][j])
      {
        assert cs[1..][j] == cs[j + 1];
      }
      FindFirstNone(cs[1..], p);
    }
  }

  /** The running answer of a forward scan that remembers the last match. */
  lemma FindLastSnoc(cs: seq<Chunk>, p: Chunk -> bool, i: nat)
    requires i < |cs|
    ensures FindLast(cs[..i + 1], p) == if p(cs[i]) then Some(i) else FindLast(cs[..i], p)
  {
    assert cs[..i + 1][..i] == cs[..i];
  }

  /** The stores rebuild_png makes for one chunk: the length field, the type
      tag, the first `length` payload octets (skipped when there are none)
      and the CRC field. */
  method WriteFrame(out: array<byte>, pos: nat, c: Chunk, crc: u32)
    requires pos + 12 + c.length <= out.Length
    modifies out
    ensures out[..pos + 12 + c.length] == old(out[..pos]) + Frame(c, crc)
    ensures out[pos + 12 + c.length..] == old(out[pos + 12 + c.length..])
  {
    ghost var before := out[..pos];
    ghost var len, tail := Be32(c.length), Be32(crc);
    var tag, payload := TagBytes(c.ctype), c.Payload();
    ghost var end := pos + 12 + c.length;
    ghost var s := out[..];
    WriteBe32(out, pos, c.length);
    SuffixKept(out[..], s, pos + 4, end);
    s := out[..];
    CopyInto(out, pos + 4, tag);
    SuffixKept(out[..], s, pos + 8, end);
    assert out[..pos + 8] == before + len + tag;
    if c.length > 0 {
      s := out[..];
      CopyInto(out, pos + 8, payload);
      SuffixKept(out[..], s, pos + 8 + c.length, end);
    } else {
      assert payload == [];
      assert out[..pos + 8 + c.length] == before + len + tag + payload;
    }
    WriteBe32(out, pos + 8 + c.length, crc);
    AppendAssoc4(before, len, tag, payload, tail);
  }

  /** Two sequences that agree from some index on agree from any later one. */
  lemma SuffixKept(a: seq<byte>, b: seq<byte>, from: nat, end: nat)
    requires from <= end <= |a| == |b| && a[from..] == b[from..]
    ensures a[end..] == b[end..]
  {
    assert a[end..] == a[from..][end - from..];
    assert b[end..] == b[from..][end - from..];
  }

  lemma AppendAssoc4<T>(a: seq<T>, b: seq<T>, c: seq<T>, d: seq<T>, e: seq<T>)
    ensures a + b + c + d + e == a + (b + c + d + e)
  {
  }

  /** The rebuild stops in front of the first chunk that does not fit: when
      not every chunk was written, the next one would overrun maxSize. */
  lemma EncodeStops(cs: seq<Chunk>, maxSize: nat)
    requires maxSize >= 8
    ensures var k := FitCount(cs, maxSize - 8);
      k < |cs| ==> 8 + Size(cs[..k]) + 12 + cs[k].length > maxSize
  {
    var k := FitCount(cs, maxSize - 8);
    if k < |cs| {
      FitCountBound(cs, maxSize - 8, k + 1);
      SizeSnoc(cs, k);
    }
  }

  /** A chunk whose stored CRC is the one its payload calls for serialises
      as it was stored. */
  lemma {:induction false} StoredIsEncoded(cs: seq<Chunk>)
    requires forall i :: 0 <= i < |cs| ==> !cs[i].forcedCrc && cs[i].crc == ChunkCrc(cs[i].ctype, cs[i].Payload())
    ensures Concat(StoredFrame, cs) == EncodeAll(cs)
  {
    if cs != [] {
      assert StoredFrame(cs[0]) == EncodeChunk(cs[0]);
      forall i | 0 <= i < |cs| - 1
        ensures !cs[1..][i].forcedCrc && cs[1..][i].crc == ChunkCrc(cs[1..][i].ctype, cs[1..][i].Payload())
      {
        assert cs[1..][i] == cs[i + 1];
      }
      StoredIsEncoded(cs[1..]);
    }
  }
}
