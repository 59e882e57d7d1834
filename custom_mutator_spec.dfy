/** What custom_mutator.c, the smaller of the two mutators, computes as
    functions of the input and of the outcomes of rand(): its parse, its
    three mutation operators and its afl_custom_fuzz step. It shares the
    chunk record, the scan and the bounded rebuild of module PngChunks; the
    class methods in module CustomMutator are proved to compute these. */
module CustomMutatorSpec {
  import opened PngBytes
  import opened PngChunks
  import PngMutatorSpec

  /** parse_png here never compares a length field with a cap: every u32
      length is within this one, so only the buffer bounds stop the scan. */
  const NoCap: nat := 0xFFFF_FFFF

  /** parse_png: no result when the input is shorter than the signature or
      does not start with it; otherwise the scan from offset 8, which may
      hold no chunk at all. */
  function CustomParse(buf: seq<byte>): (r: Option<seq<Chunk>>)
  {
    if |buf| < 8 || buf[..8] != Signature then None else Some(ScanFrom(buf, 8, NoCap))
  }

  /** An input that starts with the signature parses to its scan. */
  lemma CustomParseSigned(buf: seq<byte>)
    requires |buf| >= 8 && buf[..8] == Signature
    ensures CustomParse(buf) == Some(ScanFrom(buf, 8, NoCap))
  {
  }

  /** Everything parse_png accepts lies inside the input and was read from
      it verbatim, back to back from offset 8, with each CRC the stored field
      and its flag clear and IEND only in the last place; the scan ends after
      IEND or in front of a frame whose header or payload runs past the end. */
  lemma CustomParsedShape(buf: seq<byte>)
    requires CustomParse(buf).Some?
    ensures var cs := CustomParse(buf).value;
      8 + Size(cs) <= |buf| && buf[..8] == Signature
      && buf[8..8 + Size(cs)] == Concat(StoredFrame, cs)
    ensures AsRead(CustomParse(buf).value, NoCap)
    ensures IendOnlyLast(CustomParse(buf).value)
    ensures var cs, end := CustomParse(buf).value, 8 + Size(CustomParse(buf).value);
      (cs != [] && cs[|cs| - 1].ctype == IEND) || end + 12 > |buf| || end + 12 + ReadBe32(buf, end) > |buf|
  {
    assert |buf| >= 8 && buf[..8] == Signature;
    var cs := ScanFrom(buf, 8, NoCap);
    assert CustomParse(buf).value == cs;
    ScanIsVerbatim(buf, 8, NoCap);
    ScanFromShape(buf, 8, NoCap);
    ScanInside(buf, 8, NoCap);
  }

  /** In an input below 2^32 octets every accepted length leaves room for
      the 12 framing octets in 32 bits, so the 32-bit sum `12 + length` of
      rebuild_png does not wrap for a parsed chunk. */
  lemma ParsedFramesNoWrap(buf: seq<byte>)
    requires CustomParse(buf).Some? && |buf| < 0x1_0000_0000
    ensures var cs := CustomParse(buf).value;
      forall i :: 0 <= i < |cs| ==> 12 + cs[i].length < 0x1_0000_0000
  {
    var cs := CustomParse(buf).value;
    CustomParsedShape(buf);
    forall i | 0 <= i < |cs|
      ensures 12 + cs[i].length < 0x1_0000_0000
    {
      SizeCovers(cs, i);
    }
  }

  /** Two caps that both exceed every length a frame inside buf can declare
      give the same scan. */
  lemma {:induction false} ScanCapsAgree(buf: seq<byte>, pos: nat, cap1: nat, cap2: nat)
    requires |buf| <= cap1 + 12 && |buf| <= cap2 + 12
    ensures ScanFrom(buf, pos, cap1) == ScanFrom(buf, pos, cap2)
    decreases |buf| - pos
  {
    if FrameFits(buf, pos, cap1) || FrameFits(buf, pos, cap2) {
      assert FrameFits(buf, pos, cap1) && FrameFits(buf, pos, cap2);
      var next := pos + 12 + ReadBe32(buf, pos);
      ScanStep(buf, pos, cap1, next);
      ScanStep(buf, pos, cap2, next);
      if ChunkAt(buf, pos).ctype != IEND {
        ScanCapsAgree(buf, next, cap1, cap2);
      }
    }
  }

  /** The two parsers compared. Below 2 GiB they scan the same chunks; the
      one here also accepts a signature followed by no chunk that fits, with
      any trailing octets, and the other rejects exactly that case. */
  lemma ParsersCompared(buf: seq<byte>)
    ensures |buf| <= PngMutatorSpec.LengthCap + 12 && CustomParse(buf).Some? ==>
      CustomParse(buf).value == PngMutatorSpec.ParsedChunks(buf)
    ensures PngMutatorSpec.Parse(buf).Some? ==> CustomParse(buf).Some?
    ensures |buf| <= PngMutatorSpec.LengthCap + 12 ==>
      (CustomParse(buf) == Some([]) <==> CustomParse(buf).Some? && PngMutatorSpec.Parse(buf).None?)
    ensures CustomParse(Signature) == Some([]) && PngMutatorSpec.Parse(Signature).None?
  {
    if |buf| <= PngMutatorSpec.LengthCap + 12 {
      ScanCapsAgree(buf, 8, NoCap, PngMutatorSpec.LengthCap);
    }
    var sig := Signature;
    assert sig[..8] == Signature;
    assert !FrameFits(sig, 8, NoCap) && !FrameFits(sig, 8, PngMutatorSpec.LengthCap);
  }

  /** Round trip: parsing what rebuild_png wrote gives back every chunk with
      its length, type and payload, and a CRC equal to calculate_crc of that
      type and payload. The list may be empty here. */
  lemma CustomParseOfRebuild(cs: seq<Chunk>, maxSize: nat)
    requires forall i :: 0 <= i < |cs| ==> !cs[i].forcedCrc
    requires IendOnlyLast(cs)
    requires 8 + Size(cs) <= maxSize
    ensures CustomParse(Encode(cs, maxSize)) == Some(Normalized(cs))
    ensures forall i :: 0 <= i < |cs| ==>
      Normalized(cs)[i].crc == ChunkCrc(cs[i].ctype, cs[i].Payload())
  {
    ScanOfFittingRebuild(cs, maxSize, NoCap);
    CustomParseSigned(Encode(cs, maxSize));
  }

  /** The other direction: rebuilding a parse whose stored CRCs are all
      correct reproduces the part of the input that was parsed. */
  lemma CustomRebuildOfParse(buf: seq<byte>)
    requires CustomParse(buf).Some?
    requires var cs := CustomParse(buf).value;
      forall i :: 0 <= i < |cs| ==> cs[i].crc == ChunkCrc(cs[i].ctype, cs[i].Payload())
    ensures 8 + Size(CustomParse(buf).value) <= |buf|
    ensures var cs := CustomParse(buf).value;
      Encode(cs, |buf|) == buf[..8 + Size(cs)]
  {
    var cs := CustomParse(buf).value;
    CustomParsedShape(buf);
    StoredIsEncoded(cs);
    EncodeFits(cs, |buf|);
    SliceSplit(buf, 0, 8, 8 + Size(cs));
    assert buf[..8 + Size(cs)] == buf[0..8 + Size(cs)];
  }

  // ---------------------------------------------------------------- mutate_ihdr

  /** The rand() outcomes mutate_ihdr draws: the edit, and the value it
      writes (a whole rand() outcome or its low octet). */
  datatype HeaderDraw = HeaderDraw(choice: Word, value: Word)

  /** The header octets after one mutate_ihdr edit: a random width, a
      random height, a random bit depth, a random colour type, or width and
      height both 0xFFFFFFFF. */
  function HeaderEdit(data: seq<byte>, d: HeaderDraw): (r: seq<byte>)
    requires |data| >= 13
    ensures |r| == |data|
  {
    var choice := d.choice % 5;
    if choice == 0 then Be32(d.value) + data[4..]
    else if choice == 1 then data[..4] + Be32(d.value) + data[8..]
    else if choice == 2 then data[8 := d.value % 0x100]
    else if choice == 3 then data[9 := d.value % 0x100]
    else Be32(0xFFFF_FFFF) + Be32(0xFFFF_FFFF) + data[8..]
  }

  /** What each edit does, read back through the header fields: the width
      or the height becomes the drawn value, the bit depth or the colour
      type its low octet, or width and height become 0xFFFFFFFF. Octets an
      edit does not name are kept, and no edit reaches past octet 9. */
  lemma HeaderEditFields(data: seq<byte>, d: HeaderDraw)
    requires |data| >= 13
    ensures var r := HeaderEdit(data, d); r[10..] == data[10..]
    ensures var r, choice := HeaderEdit(data, d), d.choice % 5;
      && (choice == 0 ==> ReadBe32(r, 0) == d.value && r[4..] == data[4..])
      && (choice == 1 ==> ReadBe32(r, 4) == d.value && r[..4] == data[..4] && r[8..] == data[8..])
      && (choice == 2 ==> r[8] == d.value % 0x100 && forall j :: 0 <= j < |r| && j != 8 ==> r[j] == data[j])
      && (choice == 3 ==> r[9] == d.value % 0x100 && forall j :: 0 <= j < |r| && j != 9 ==> r[j] == data[j])
      && (choice == 4 ==> ReadBe32(r, 0) == 0xFFFF_FFFF && ReadBe32(r, 4) == 0xFFFF_FFFF && r[8..] == data[8..])
  {
    var r, choice := HeaderEdit(data, d), d.choice % 5;
    if choice == 0 {
      ReadBe32Local(r, 0, Be32(d.value));
      ReadOfBe32(d.value);
      assert r[4..] == data[4..];
    } else if choice == 1 {
      assert r[4..8] == Be32(d.value);
      ReadBe32Local(r, 4, Be32(d.value));
      ReadOfBe32(d.value);
      assert r[8..] == data[8..];
    } else if choice == 4 {
      assert r[0..4] == Be32(0xFFFF_FFFF) && r[4..8] == Be32(0xFFFF_FFFF);
      ReadBe32Local(r, 0, Be32(0xFFFF_FFFF));
      ReadBe32Local(r, 4, Be32(0xFFFF_FFFF));
      ReadOfBe32(0xFFFF_FFFF);
      assert r[8..] == data[8..];
    }
  }

  /** mutate_ihdr: the first IHDR chunk with at least 13 octets gets one
      header edit; without one the list is unchanged. */
  function HeaderMutated(cs: seq<Chunk>, d: HeaderDraw): (r: seq<Chunk>)
  {
    var k := FindFirst(cs, IsIhdrTarget);
    if k == |cs| then cs else cs[k := cs[k].(data := HeaderEdit(cs[k].data, d))]
  }

  /** mutate_ihdr changes no count, no length, no type tag and no CRC; it
      touches only octets 0..9 of the first eligible IHDR chunk. */
  lemma HeaderMutatedShape(cs: seq<Chunk>, d: HeaderDraw)
    ensures var r := HeaderMutated(cs, d);
      |r| == |cs| && forall i :: 0 <= i < |cs| ==> SameFraming(r[i], cs[i])
    ensures var r, k := HeaderMutated(cs, d), FindFirst(cs, IsIhdrTarget);
      forall i :: 0 <= i < |cs| && i != k ==> r[i] == cs[i]
    ensures var r, k := HeaderMutated(cs, d), FindFirst(cs, IsIhdrTarget);
      k < |cs| ==> IsIhdrTarget(cs[k]) && r[k].data[10..] == cs[k].data[10..]
    ensures (forall i :: 0 <= i < |cs| ==> !IsIhdrTarget(cs[i])) ==> HeaderMutated(cs, d) == cs
  {
    var k := FindFirst(cs, IsIhdrTarget);
    if k < |cs| {
      HeaderEditFields(cs[k].data, d);
    }
    if forall i :: 0 <= i < |cs| ==> !IsIhdrTarget(cs[i]) {
      FindFirstNone(cs, IsIhdrTarget);
    }
  }

  // ---------------------------------------------------------- drop_random_chunk

  /** The index drop_random_chunk removes: drawn from [1, n-1]. */
  function DropIndex(n: nat, w: Word): (k: nat)
    requires n >= 3
    ensures 1 <= k < n
  {
    1 + w % (n - 1)
  }

  /** drop_random_chunk: at most two chunks are left alone. */
  function Dropped(cs: seq<Chunk>, w: Word): (r: seq<Chunk>)
  {
    if |cs| <= 2 then cs else RemoveAt(cs, DropIndex(|cs|, w))
  }

  /** drop_random_chunk removes exactly one chunk, never the first, keeping
      the others in order. Unlike delete_chunk of the larger mutator it may
      remove the closing IEND chunk. */
  lemma DroppedShape(cs: seq<Chunk>, w: Word)
    ensures |cs| <= 2 ==> Dropped(cs, w) == cs
    ensures |cs| >= 3 ==>
      exists k :: 1 <= k < |cs| && Dropped(cs, w) == cs[..k] + cs[k + 1..]
    ensures |cs| >= 3 ==> |Dropped(cs, w)| == |cs| - 1 && Dropped(cs, w)[0] == cs[0]
    ensures |cs| >= 3 && w % (|cs| - 1) == |cs| - 2 ==> Dropped(cs, w) == cs[..|cs| - 1]
  {
    if |cs| >= 3 {
      var k := DropIndex(|cs|, w);
      assert Dropped(cs, w) == cs[..k] + cs[k + 1..];
    }
  }

  // ------------------------------------------------------- corrupt_crc_randomly

  /** The rand() outcomes corrupt_crc_randomly draws: the chunk and the new
      CRC field. */
  datatype CrcSetDraw = CrcSetDraw(idx: Word, value: Word)

  /** corrupt_crc_randomly: one chunk gets a raw rand() value as its CRC
      field and its flag set; an empty list is left alone. */
  function CrcRandomized(cs: seq<Chunk>, d: CrcSetDraw): (r: seq<Chunk>)
  {
    if |cs| == 0 then cs
    else
      var k := d.idx % |cs|;
      cs[k := cs[k].(crc := d.value, forcedCrc := true)]
  }

  /** corrupt_crc_randomly keeps the count and every other chunk, and the
      chosen chunk serialises to its own frame carrying the drawn field. */
  lemma CrcRandomizedShape(cs: seq<Chunk>, d: CrcSetDraw)
    ensures |CrcRandomized(cs, d)| == |cs|
    ensures |cs| == 0 ==> CrcRandomized(cs, d) == cs
    ensures var r, k := CrcRandomized(cs, d), d.idx % Max(|cs|, 1);
      |cs| > 0 ==>
        && r[k].forcedCrc && r[k].crc == d.value
        && r[k].length == cs[k].length && r[k].ctype == cs[k].ctype && r[k].data == cs[k].data
        && EncodeChunk(r[k]) == Frame(cs[k], d.value)
        && forall i :: 0 <= i < |cs| && i != k ==> r[i] == cs[i]
  {
  }

  // ------------------------------------------------------------ afl_custom_fuzz

  /** Every rand() outcome one afl_custom_fuzz call may draw. */
  datatype CustomDraws = CustomDraws(op: Word, header: HeaderDraw, drop: Word, crc: CrcSetDraw)

  /** The operator afl_custom_fuzz applies, chosen by a draw below 100: a
      header edit below 40, a drop below 70, and a CRC otherwise. */
  function CustomMutate(cs: seq<Chunk>, d: CustomDraws): (mutated: seq<Chunk>)
  {
    var r := d.op % 100;
    if r < 40 then HeaderMutated(cs, d.header)
    else if r < 70 then Dropped(cs, d.drop)
    else CrcRandomized(cs, d.crc)
  }

  /** No operator adds a chunk, at most one is removed, and the first
      chunk keeps its type tag and length. */
  lemma CustomMutateShape(cs: seq<Chunk>, d: CustomDraws)
    ensures var r := CustomMutate(cs, d);
      |cs| - 1 <= |r| <= |cs| && (r == [] <==> cs == [])
    ensures var r := CustomMutate(cs, d);
      cs != [] ==> r[0].ctype == cs[0].ctype && r[0].length == cs[0].length
  {
    var r := d.op % 100;
    if r < 40 {
      HeaderMutatedShape(cs, d.header);
    } else if r < 70 {
      DroppedShape(cs, d.drop);
    } else {
      CrcRandomizedShape(cs, d.crc);
    }
  }

  /** The octets afl_custom_fuzz hands back: the input itself when it does
      not parse or the rebuild writes nothing, otherwise the rebuilt
      mutation. */
  function CustomFuzzOutput(input: seq<byte>, maxSize: nat, d: CustomDraws): (out: seq<byte>)
  {
    match CustomParse(input)
    case None => input
    case Some(cs) =>
      var e := Encode(CustomMutate(cs, d), maxSize);
      if |e| > 0 then e else input
  }

  /** Whatever maxSize is: an input that does not parse, and every input
      when maxSize is below 8, comes back unchanged; otherwise the result is
      the rebuilt mutation, no longer than maxSize and starting with the
      signature. */
  lemma CustomFuzzOutputShape(input: seq<byte>, maxSize: nat, d: CustomDraws)
    ensures CustomParse(input).None? || maxSize < 8 ==> CustomFuzzOutput(input, maxSize, d) == input
    ensures CustomParse(input).Some? && maxSize >= 8 ==>
      var out := CustomFuzzOutput(input, maxSize, d);
      && out == Encode(CustomMutate(CustomParse(input).value, d), maxSize)
      && 8 <= |out| <= maxSize && out[..8] == Signature
  {
    if CustomParse(input).Some? {
      EncodeBounds(CustomMutate(CustomParse(input).value, d), maxSize);
    }
  }
}
