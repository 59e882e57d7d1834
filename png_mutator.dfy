/** png_mutator.c as imperative code: the chunk list of a parsed PNG, the
    cursor scan that fills it, the bounded rebuild into the output buffer,
    the in-place mutation operators, the raw-byte fallback and the fuzzer
    entry point with its growing scratch buffer. Each method is proved to
    compute the function of module PngMutatorSpec that describes it. */
module PngMutator {
  import opened PngBytes
  import opened PngChunks
  import opened PngMutatorSpec

  /** png_data_t: the chunks in file order. The array, its count and its
      capacity are one growable sequence here. */
  class PngData {
    var chunks: seq<Chunk>

    /** png_data_init. */
    constructor ()
      ensures chunks == []
    {
      chunks := [];
    }

    /** png_data_add_chunk: append one chunk. */
    method AddChunk(c: Chunk)
      modifies this
      ensures chunks == old(chunks) + [c]
    {
      chunks := chunks + [c];
    }

    /** parse_png: 0 and the scanned chunks, or -1 when the input is too
        short, has a different signature, or yields no chunk. */
    method ParsePng(buf: seq<byte>) returns (status: int)
      modifies this
      ensures chunks == ParsedChunks(buf)
      ensures status == 0 || status == -1
      ensures status == 0 <==> Parse(buf).Some?
    {
      chunks := [];
      if |buf| < 8 || buf[..8] != Signature {
        return -1;
      }
      var pos: nat := 8;
      while pos + 12 <= |buf|
        invariant pos <= |buf|
        invariant chunks + ScanFrom(buf, pos, LengthCap) == ScanFrom(buf, 8, LengthCap)
        decreases |buf| - pos
      {
        var length := ReadBe32(buf, pos);
        if length > 0x7FFF_FFFF || pos + 4 + 4 + length + 4 > |buf| {
          ScanStops(buf, pos, LengthCap);
          break;
        }
        var ctype := TagAt(buf, pos + 4);
        var data: seq<byte> := if length > 0 then buf[pos + 8..pos + 8 + length] else [];
        var crc := ReadBe32(buf, pos + 8 + length);
        var c := Chunk(length, ctype, data, crc, false);
        ReadChunkIs(buf, pos, length, data);
        var next := pos + 12 + length;
        ScanAdvance(buf, pos, LengthCap, next, c, chunks, ScanFrom(buf, 8, LengthCap));
        AddChunk(c);
        if ctype == IEND {
          break;
        }
        pos := next;
      }
      if pos + 12 > |buf| {
        ScanStops(buf, pos, LengthCap);
      }
      status := if |chunks| > 0 then 0 else -1;
    }

    /** rebuild_png: the signature, then each chunk while it fits in
        maxSize, with its stored CRC when the flag is set and calculate_crc
        otherwise; the number of octets written. */
    method RebuildPng(out: array<byte>, maxSize: nat) returns (n: nat)
      requires maxSize <= out.Length
      modifies out
      ensures n == |Encode(chunks, maxSize)| <= maxSize
      ensures out[..n] == Encode(chunks, maxSize)
      ensures out[n..] == old(out[n..])
    {
      if maxSize < 8 {
        return 0;
      }
      ghost var prev := out[..];
      CopyInto(out, 0, Signature);
      ghost var room: nat := maxSize - 8;
      var pos := 8;
      var i := 0;
      while i < |chunks|
        invariant i <= FitCount(chunks, room)
        invariant pos == 8 + Size(chunks[..i]) <= maxSize
        invariant out[..pos] == Signature + EncodeAll(chunks[..i])
        invariant out[pos..] == prev[pos..]
      {
        var c := chunks[i];
        var required := 4 + 4 + c.length + 4;
        EncodeStep(chunks, room, i);
        if pos + required > maxSize {
          break;
        }
        var crc := if c.forcedCrc then c.crc else ChunkCrc(c.ctype, c.Payload());
        EncodeExtend(chunks, i, out[..pos], crc);
        ghost var before := out[..];
        WriteFrame(out, pos, c, crc);
        SuffixKept(before, prev, pos, pos + 12 + c.length);
        pos := pos + required;
        i := i + 1;
      }
      EncodeDone(chunks, maxSize, i);
      n := pos;
    }

    /** mutate_ihdr: one header edit in the first IHDR chunk that holds
        the 13 header octets. */
    method MutateIhdr(d: IhdrDraw)
      modifies this
      ensures chunks == IhdrMutated(old(chunks), d)
    {
      var i := 0;
      while i < |chunks|
        invariant i <= |chunks| && chunks == old(chunks)
        invariant forall j :: 0 <= j < i ==> !IsIhdrTarget(chunks[j])
      {
        var c := chunks[i];
        if c.ctype == IHDR && c.length >= 13 {
          FindFirstIs(chunks, IsIhdrTarget, i);
          chunks := chunks[i := c.(data := IhdrEdit(c.data, d))];
          return;
        }
        i := i + 1;
      }
      FindFirstNone(chunks, IsIhdrTarget);
    }

    /** mutate_chunk_data: find the last non-empty chunk and the last
        non-empty IDAT, pick one, and apply its edits one after another. */
    method MutateChunkData(d: DataDraw)
      modifies this
      ensures chunks == DataMutated(old(chunks), d)
    {
      if |chunks| == 0 {
        assert DataTarget(chunks, d.bias).None?;
        return;
      }
      var idx := FindDataTarget(chunks, d.bias);
      if idx.None? {
        return;
      }
      DataTargetIs(chunks, d.bias);
      var k := idx.value;
      var c := chunks[k];
      var times := 1 + RandRange(c.length / 10 + 1, d.times);
      var data := EditPayload(c.data, c.length, d.edits, times);
      chunks := chunks[k := c.(data := data)];
    }

    /** The search loop of mutate_chunk_data: remember the last non-empty
        chunk and the last non-empty IDAT, then prefer the IDAT when the
        bias draw is below 60. */
    static method FindDataTarget(cs: seq<Chunk>, bias: Word) returns (idx: Option<nat>)
      ensures idx == DataTarget(cs, bias)
    {
      var idat: Option<nat> := None;
      var any: Option<nat> := None;
      var i := 0;
      while i < |cs|
        invariant i <= |cs|
        invariant idat == FindLast(cs[..i], IsIdatPayload)
        invariant any == FindLast(cs[..i], HasPayload)
      {
        var c := cs[i];
        FindLastSnoc(cs, IsIdatPayload, i);
        FindLastSnoc(cs, HasPayload, i);
        if c.length > 0 {
          any := Some(i);
          if c.ctype == IDAT {
            idat := Some(i);
          }
        }
        i := i + 1;
      }
      assert cs[..i] == cs;
      idx := if idat.Some? && RandRange(100, bias) < 60 then idat else any;
    }

    /** The edit loop of mutate_chunk_data: `times` edits of the first len
        octets, one after another. */
    static method EditPayload(data: seq<byte>, len: nat, edits: nat -> EditDraw, times: nat)
      returns (r: seq<byte>)
      requires 0 < len <= |data|
      ensures r == ApplyEdits(data, len, edits, times)
    {
      r := data;
      var m := 0;
      while m < times
        invariant m <= times
        invariant r == ApplyEdits(data, len, edits, m)
      {
        ApplyEditsStep(data, len, edits, m, r);
        r := EditByte(r, len, edits(m));
        m := m + 1;
      }
    }

    /** The operator afl_custom_fuzz applies to the parsed list. */
    method ApplyMutation(d: Draws)
      modifies this
      ensures chunks == Mutate(old(chunks), d)
    {
      var r := RandRange(100, d.op);
      if r < 20 {
        MutateIhdr(d.ihdr);
      } else if r < 45 {
        MutateChunkData(d.data);
      } else if r < 60 {
        CorruptCrc(d.crc);
      } else if r < 70 {
        DeleteChunk(d.del);
      } else if r < 80 {
        DuplicateChunk(d.dup);
      } else if r < 90 {
        InsertRandomChunk(d.ins);
      } else if r < 95 {
        TruncateIdat(d.trunc);
      } else {
        MutateIhdr(d.ihdr);
        MutateChunkData(d.data);
      }
    }

    /** corrupt_crc: a new CRC field for one drawn chunk, which is then
        written verbatim. */
    method CorruptCrc(d: CrcDraw)
      modifies this
      ensures chunks == CrcCorrupted(old(chunks), d)
    {
      if |chunks| == 0 {
        return;
      }
      var idx := RandRange(|chunks|, d.idx);
      var c := chunks[idx];
      chunks := chunks[idx := c.(crc := PngMutatorSpec.CorruptCrc(c.crc, d), forcedCrc := true)];
    }

    /** delete_chunk: remove one chunk other than the first, drawing again
        (mostly) when the first draw hits an IEND. */
    method DeleteChunk(d: DeleteDraw)
      modifies this
      ensures chunks == ChunkDeleted(old(chunks), d)
    {
      if |chunks| < 3 {
        return;
      }
      var idx := 1 + RandRange(|chunks| - 1, d.idx);
      if chunks[idx].ctype == IEND && RandRange(100, d.bias) < 90 {
        idx := 1 + RandRange(|chunks| - 2, d.repick);
      }
      chunks := chunks[..idx] + chunks[idx + 1..];
    }

    /** duplicate_chunk: a copy of one drawn chunk right after it. */
    method DuplicateChunk(w: Word)
      modifies this
      ensures chunks == ChunkDuplicated(old(chunks), w)
    {
      if |chunks| == 0 {
        return;
      }
      var idx := RandRange(|chunks|, w);
      var src := chunks[idx];
      var dup := Chunk(src.length, src.ctype, src.data[..src.length], src.crc, src.forcedCrc);
      chunks := chunks[..idx + 1] + [dup] + chunks[idx + 1..];
    }

    /** insert_random_chunk: build a chunk of random tag, length and
        payload with its CRC computed, and put it at a drawn position other
        than the first. */
    method InsertRandomChunk(d: InsertDraw)
      modifies this
      ensures chunks == ChunkInserted(old(chunks), d)
    {
      if |chunks| < 2 {
        return;
      }
      var mode := RandRange(4, d.mode);
      var tag: Tag;
      if mode == 0 {
        tag := KnownTags[RandRange(7, d.tag(0))];
      } else {
        var octets: seq<byte> := [0, 0, 0, 0];
        for i := 0 to 4
          invariant |octets| == 4
          invariant forall j :: 0 <= j < i ==> octets[j] == TagOctet(mode, d.tag(j))
        {
          octets := octets[i := TagOctet(mode, d.tag(i))];
        }
        tag := Tag(octets[0], octets[1], octets[2], octets[3]);
      }
      assert tag == InsertTag(d);
      var length := [0, 1, 10, 100, RandRange(500, d.lenRaw)][RandRange(5, d.lenPick)];
      var data: seq<byte> := [];
      for i := 0 to length
        invariant |data| == i
        invariant forall j :: 0 <= j < i ==> data[j] == Octet(d.payload(j))
      {
        data := data + [Octet(d.payload(i))];
      }
      assert length == InsertLength(d);
      assert data == seq<byte>(length, i requires 0 <= i => Octet(d.payload(i)));
      var c := Chunk(length, tag, data, ChunkCrc(tag, data), false);
      assert c == NewChunk(d);
      var pos := 1 + RandRange(|chunks| - 1, d.pos);
      chunks := chunks[..pos] + [c] + chunks[pos..];
    }

    /** truncate_idat: shorten the first IDAT chunk longer than one octet. */
    method TruncateIdat(w: Word)
      modifies this
      ensures chunks == IdatTruncated(old(chunks), w)
    {
      var k := FindTruncatable(chunks);
      if k < |chunks| {
        var c := chunks[k];
        chunks := chunks[k := c.(length := 1 + RandRange(c.length - 1, w))];
      }
    }

    /** The search loop of truncate_idat: the index of the first IDAT
        chunk longer than one octet, or the count when there is none. */
    static method FindTruncatable(cs: seq<Chunk>) returns (k: nat)
      ensures k == FindFirst(cs, IsTruncatable)
    {
      k := 0;
      while k < |cs|
        invariant k <= |cs|
        invariant forall j :: 0 <= j < k ==> !IsTruncatable(cs[j])
      {
        if cs[k].ctype == IDAT && cs[k].length > 1 {
          FindFirstIs(cs, IsTruncatable, k);
          return;
        }
        k := k + 1;
      }
      FindFirstNone(cs, IsTruncatable);
    }
  }

  /** mutate_random on the buffer b holding `size` input octets: fill a
      fresh length with random octets when size is 0, otherwise overwrite
      a few random positions below size. Nothing at or after the returned
      length changes. */
  method MutateRandom(b: array<byte>, size: nat, maxSize: nat, d: RandomDraw) returns (n: nat)
    requires size <= b.Length && (size == 0 ==> maxSize <= b.Length)
    modifies b
    ensures n == RandomLength(size, maxSize, d)
    ensures b[..n] == RandomOutput(old(b[..size]), maxSize, d)
    ensures b[n..] == old(b[n..])
  {
    if size == 0 {
      n := 1 + RandRange(100, d.size);
      if n > maxSize {
        n := maxSize;
      }
      for i := 0 to n
        invariant forall j :: 0 <= j < i ==> b[j] == Octet(d.value(j))
        invariant forall j :: i <= j < b.Length ==> b[j] == old(b[j])
      {
        b[i] := Octet(d.value(i));
      }
      assert b[..n] == RandomOutput([], maxSize, d);
      return;
    }
    ghost var input := b[..size];
    var count := 1 + RandRange(size / 20 + 1, d.count);
    for i := 0 to count
      invariant b[..size] == RandomWrites(input, d, i)
      invariant b[size..] == old(b[size..])
    {
      var pos := RandRange(size, d.pos(i));
      ghost var prev := b[..size];
      b[pos] := Octet(d.value(i));
      assert b[..size] == prev[pos := Octet(d.value(i))];
    }
    n := size;
  }

  /** mutator_state_t: the scratch buffer handed back to the fuzzer; its
      size never shrinks. */
  class MutatorState {
    var buf: array<byte>
    var bufSize: nat

    ghost predicate Valid()
      reads this
    {
      buf.Length == bufSize
    }

    /** afl_custom_init: no scratch buffer yet. */
    constructor ()
      ensures Valid() && bufSize == 0
    {
      buf := new byte[0];
      bufSize := 0;
    }

    /** The first step of afl_custom_fuzz: a scratch buffer smaller than
        maxSize is replaced by one of maxSize octets. */
    method Grow(maxSize: nat)
      requires Valid()
      modifies this
      ensures Valid() && bufSize == Max(old(bufSize), maxSize)
      ensures buf == old(buf) || fresh(buf)
    {
      if bufSize < maxSize {
        buf := new byte[maxSize];
        bufSize := maxSize;
      }
    }

    /** afl_custom_fuzz: grow the scratch buffer to maxSize, then copy,
        parse, mutate and rebuild into it. The result is the first n octets
        of the scratch buffer. The input must fit in the buffer after it has
        grown. */
    method Fuzz(input: seq<byte>, maxSize: nat, d: Draws) returns (n: nat)
      requires Valid() && |input| <= Max(bufSize, maxSize)
      modifies this, buf
      ensures Valid() && bufSize == Max(old(bufSize), maxSize)
      ensures n <= buf.Length && buf[..n] == FuzzOutput(input, maxSize, d)
    {
      Grow(maxSize);
      n := FuzzInto(buf, input, maxSize, d);
    }
  }

  /** The body of afl_custom_fuzz once the scratch buffer b is large
      enough: copy the input into it, parse, mutate and rebuild, falling
      back to mutate_random on a parse failure or an empty rebuild. */
  method FuzzInto(b: array<byte>, input: seq<byte>, maxSize: nat, d: Draws) returns (n: nat)
    requires |input| <= b.Length && maxSize <= b.Length
    modifies b
    ensures n <= b.Length && b[..n] == FuzzOutput(input, maxSize, d)
  {
    ghost var fallback := RandomOutput(input, maxSize, d.random);
    CopyInto(b, 0, input);
    assert b[..|input|] == input;
    var png := new PngData();
    var status := png.ParsePng(input);
    if status < 0 {
      assert FuzzOutput(input, maxSize, d) == fallback;
      n := MutateRandom(b, |input|, maxSize, d.random);
      return;
    }
    ghost var e := Encode(Mutate(png.chunks, d), maxSize);
    assert FuzzOutput(input, maxSize, d) == if e == [] then fallback else e;
    png.ApplyMutation(d);
    n := png.RebuildPng(b, maxSize);
    if n == 0 {
      CopyInto(b, 0, input);
      assert b[..|input|] == input;
      n := MutateRandom(b, |input|, maxSize, d.random);
    }
  }
}
