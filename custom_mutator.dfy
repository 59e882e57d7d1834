/** custom_mutator.c as imperative code: the chunk list of a parsed PNG,
    its uncapped cursor scan, the bounded rebuild into the scratch buffer,
    the three in-place operators and the fuzzer entry point, which hands
    back either the scratch buffer or the caller's own input. Each method is
    proved to compute the function of module CustomMutatorSpec that
    describes it. */
module CustomMutator {
  import opened PngBytes
  import opened PngChunks
  import opened CustomMutatorSpec

  /** png_file_t: the chunks in file order; the array, its count and its
      capacity are one growable sequence here. */
  class PngFile {
    var chunks: seq<Chunk>

    constructor ()
      ensures chunks == []
    {
      chunks := [];
    }

    /** parse_png: false, with the list untouched, when the input is too
        short or has a different signature; true and the scanned chunks,
        possibly none, otherwise. */
    method ParsePng(buf: seq<byte>) returns (ok: bool)
      modifies this
      ensures ok <==> CustomParse(buf).Some?
      ensures ok ==> chunks == CustomParse(buf).value
      ensures !ok ==> chunks == old(chunks)
    {
      if |buf| < 8 || buf[..8] != Signature {
        return false;
      }
      chunks := [];
      var pos: nat := 8;
      while pos + 12 <= |buf|
        invariant pos <= |buf|
        invariant chunks + ScanFrom(buf, pos, NoCap) == ScanFrom(buf, 8, NoCap)
        decreases |buf| - pos
      {
        var length := ReadBe32(buf, pos);
        if pos + 4 + 4 + length + 4 > |buf| {
          ScanStops(buf, pos, NoCap);
          break;
        }
        var ctype := TagAt(buf, pos + 4);
        var data: seq<byte> := if length > 0 then buf[pos + 8..pos + 8 + length] else [];
        var crc := ReadBe32(buf, pos + 8 + length);
        var c := Chunk(length, ctype, data, crc, false);
        ReadChunkIs(buf, pos, length, data);
        var next := pos + 12 + length;
        ScanAdvance(buf, pos, NoCap, next, c, chunks, ScanFrom(buf, 8, NoCap));
        chunks := chunks + [c];
        if ctype == IEND {
          break;
        }
        pos := next;
      }
      if pos + 12 > |buf| {
        ScanStops(buf, pos, NoCap);
      }
      ok := true;
    }

    /** rebuild_png: the signature, then each chunk while it fits in
        maxSize, with its stored CRC when the flag is set and the computed
        CRC otherwise; the number of octets written, 0 when the signature
        does not fit. */
    method RebuildPng(out: array<byte>, maxSize: nat) returns (n: nat)
      requires maxSize <= out.Length
      modifies out
      ensures n == |Encode(chunks, maxSize)| <= maxSize
      ensures out[..n] == Encode(chunks, maxSize)
      ensures out[n..] == old(out[n..])
    {
      if maxSize < 8 {
        return 0;
      }
      ghost var prev := out[..];
      CopyInto(out, 0, Signature);
      ghost var room: nat := maxSize - 8;
      var pos := 8;
      for i := 0 to |chunks|
        invariant i <= FitCount(chunks, room)
        invariant pos == 8 + Size(chunks[..i]) <= maxSize
        invariant out[..pos] == Signature + EncodeAll(chunks[..i])
        invariant out[pos..] == prev[pos..]
      {
        var c := chunks[i];
        var total := 12 + c.length;
        EncodeStep(chunks, room, i);
        if pos + total > maxSize {
          EncodeDone(chunks, maxSize, i);
          return pos;
        }
        var crc := if c.forcedCrc then c.crc else ChunkCrc(c.ctype, c.Payload());
        EncodeExtend(chunks, i, out[..pos], crc);
        ghost var before := out[..];
        WriteFrame(out, pos, c, crc);
        SuffixKept(before, prev, pos, pos + 12 + c.length);
        pos := pos + total;
      }
      EncodeDone(chunks, maxSize, |chunks|);
      n := pos;
    }

    /** mutate_ihdr: one edit of octets 0..9 in the first IHDR chunk that
        holds the 13 header octets. */
    method MutateIhdr(d: HeaderDraw)
      modifies this
      ensures chunks == HeaderMutated(old(chunks), d)
    {
      var i := 0;
      while i < |chunks|
        invariant i <= |chunks| && chunks == old(chunks)
        invariant forall j :: 0 <= j < i ==> !IsIhdrTarget(chunks[j])
      {
        var c := chunks[i];
        if c.ctype == IHDR && c.length >= 13 {
          FindFirstIs(chunks, IsIhdrTarget, i);
          chunks := chunks[i := c.(data := HeaderEdit(c.data, d))];
          return;
        }
        i := i + 1;
      }
      FindFirstNone(chunks, IsIhdrTarget);
    }

    /** drop_random_chunk: with more than two chunks, remove one at an
        index in [1, count-1] and close the gap. */
    method DropRandomChunk(w: Word)
      modifies this
      ensures chunks == Dropped(old(chunks), w)
    {
      if |chunks| <= 2 {
        return;
      }
      var idx := 1 + w % (|chunks| - 1);
      chunks := chunks[..idx] + chunks[idx + 1..];
    }

    /** corrupt_crc_randomly: give one chunk a raw rand() CRC field and set
        its flag. */
    method CorruptCrcRandomly(d: CrcSetDraw)
      modifies this
      ensures chunks == CrcRandomized(old(chunks), d)
    {
      if |chunks| == 0 {
        return;
      }
      var idx := d.idx % |chunks|;
      chunks := chunks[idx := chunks[idx].(crc := d.value, forcedCrc := true)];
    }

    /** The operator switch of afl_custom_fuzz. */
    method ApplyMutation(d: CustomDraws)
      modifies this
      ensures chunks == CustomMutate(old(chunks), d)
    {
      var mutationType := d.op % 100;
      if mutationType < 40 {
        MutateIhdr(d.header);
      } else if mutationType < 70 {
        DropRandomChunk(d.drop);
      } else {
        CorruptCrcRandomly(d.crc);
      }
    }
  }

  /** mutator_state_t: the scratch buffer the rebuilt mutation is written
      to; its size never shrinks. */
  class CustomState {
    var mutatedBuf: array<byte>
    var bufCapacity: nat

    ghost predicate Valid()
      reads this
    {
      mutatedBuf.Length == bufCapacity
    }

    /** afl_custom_init: no scratch buffer yet. */
    constructor ()
      ensures Valid() && bufCapacity == 0
    {
      mutatedBuf := new byte[0];
      bufCapacity := 0;
    }

    /** afl_custom_fuzz: grow the scratch buffer to maxSize, parse, apply
        one operator and rebuild into the scratch buffer. The result is
        either the first n octets of the scratch buffer (fromScratch) or the
        caller's own input with its own size, when the parse fails or the
        rebuild writes nothing. */
    method Fuzz(input: seq<byte>, maxSize: nat, d: CustomDraws) returns (fromScratch: bool, n: nat)
      requires Valid()
      modifies this, mutatedBuf
      ensures Valid() && bufCapacity == Max(old(bufCapacity), maxSize)
      ensures fromScratch ==> n <= maxSize && mutatedBuf[..n] == CustomFuzzOutput(input, maxSize, d)
      ensures !fromScratch ==> n == |input| && input == CustomFuzzOutput(input, maxSize, d)
      ensures fromScratch <==> CustomParse(input).Some? && maxSize >= 8
    {
      if bufCapacity < maxSize {
        mutatedBuf := new byte[maxSize];
        bufCapacity := maxSize;
      }
      var png := new PngFile();
      var ok := png.ParsePng(input);
      if !ok {
        return false, |input|;
      }
      png.ApplyMutation(d);
      var newLen := png.RebuildPng(mutatedBuf, maxSize);
      if newLen > 0 {
        return true, newLen;
      }
      return false, |input|;
    }
  }
}
