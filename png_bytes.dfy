/** Octets, 32-bit big-endian fields, the chunk CRC and the bounded random
    draw that both PNG mutators are built from. */
module PngBytes {

  /** One octet (uint8_t). */
  type byte = b: int | 0 <= b < 0x100

  /** An unsigned 32-bit value (uint32_t). */
  type u32 = x: int | 0 <= x < 0x1_0000_0000

  /** One outcome of the C library's rand(): a value in [0, RAND_MAX],
      taking RAND_MAX = 2^31 - 1 as the GNU C library does. */
  type Word = w: int | 0 <= w < 0x8000_0000

  datatype Option<T> = None | Some(value: T)

  function Min(a: nat, b: nat): (r: nat) { if a <= b then a else b }

  function Max(a: nat, b: nat): (r: nat) { if a >= b then a else b }

  /** rand_range(m): a value below m drawn from the rand() outcome w,
      or 0 when m is 0. */
  function RandRange(m: nat, w: Word): (r: nat)
    ensures m == 0 ==> r == 0
    ensures m > 0 ==> r < m
  {
    if m == 0 then 0 else w % m
  }

  /** read_be32: the network-order (big-endian) 32-bit value stored at b[at..at+4]. */
  function ReadBe32(b: seq<byte>, at: nat): (r: u32)
    requires at + 4 <= |b|
  {
    b[at] as int * 0x100_0000 + b[at + 1] as int * 0x1_0000 + b[at + 2] as int * 0x100 + b[at + 3] as int
  }

  /** The four octets write_be32 stores for v, most significant first. */
  function Be32(v: u32): (r: seq<byte>)
    ensures |r| == 4
  {
    [v / 0x100_0000, v / 0x1_0000 % 0x100, v / 0x100 % 0x100, v % 0x100]
  }

  /** Writing a field and reading it back gives the value. */
  lemma ReadOfBe32(v: u32)
    ensures ReadBe32(Be32(v), 0) == v
  {
    var v1, v2, v3 := v / 0x100, v / 0x1_0000, v / 0x100_0000;
    assert v == v1 * 0x100 + v % 0x100;
    assert v1 == v2 * 0x100 + v1 % 0x100 && v1 % 0x100 == v / 0x100 % 0x100;
    assert v2 == v3 * 0x100 + v2 % 0x100 && v2 % 0x100 == v / 0x1_0000 % 0x100;
  }

  /** Reading a field and writing it back reproduces the four octets. */
  lemma Be32OfRead(b: seq<byte>, at: nat)
    requires at + 4 <= |b|
    ensures Be32(ReadBe32(b, at)) == b[at..at + 4]
  {
    var v := ReadBe32(b, at);
    var w1 := b[at] as int * 0x1_0000 + b[at + 1] as int * 0x100 + b[at + 2] as int;
    var w2 := b[at] as int * 0x100 + b[at + 1] as int;
    assert v == w1 * 0x100 + b[at + 3] as int && v / 0x100 == w1 && v % 0x100 == b[at + 3];
    assert w1 == w2 * 0x100 + b[at + 2] as int && v / 0x1_0000 == w2 && w1 % 0x100 == b[at + 2];
    assert w2 / 0x100 == b[at] && w2 % 0x100 == b[at + 1] && v / 0x100_0000 == b[at];
  }

  /** A field read depends only on its own four octets. */
  lemma ReadBe32Local(b: seq<byte>, at: nat, w: seq<byte>)
    requires at + 4 <= |b| && b[at..at + 4] == w
    ensures ReadBe32(b, at) == ReadBe32(w, 0)
  {
    assert b[at] == w[0] && b[at + 1] == w[1] && b[at + 2] == w[2] && b[at + 3] == w[3];
  }

  function Pow2(k: nat): (p: nat)
  {
    if k == 0 then 1 else 2 * Pow2(k - 1)
  }

  lemma Pow2Values()
    ensures Pow2(8) == 0x100 && Pow2(32) == 0x1_0000_0000
  {
    assert Pow2(4) == 0x10;
    assert Pow2(8) == 0x100;
    assert Pow2(12) == 0x1000;
    assert Pow2(16) == 0x1_0000;
    assert Pow2(20) == 0x10_0000;
    assert Pow2(24) == 0x100_0000;
    assert Pow2(28) == 0x1000_0000;
  }

  /** c with bit k inverted, that is c ^ (1 << k), computed digit by digit. */
  function XorBit(c: nat, k: nat): (r: nat)
    decreases k
  {
    if k == 0 then (if c % 2 == 0 then c + 1 else c - 1)
    else 2 * XorBit(c / 2, k - 1) + c % 2
  }

  /** Inverting a bit below n keeps an n-bit value within n bits and always changes it. */
  lemma {:induction false} XorBitProps(c: nat, k: nat, n: nat)
    requires k < n && c < Pow2(n)
    ensures XorBit(c, k) < Pow2(n) && XorBit(c, k) != c
    decreases k
  {
    var h := Pow2(n - 1);
    assert Pow2(n) == 2 * h;
    var q, m := c / 2, c % 2;
    assert c == 2 * q + m && 0 <= m < 2;
    if k > 0 {
      assert q < h;
      XorBitProps(q, k - 1, n - 1);
      assert XorBit(c, k) == 2 * XorBit(q, k - 1) + m;
    }
  }

  /** b ^= (1 << k) on an octet. */
  function FlipBit8(b: byte, k: nat): (r: byte)
    requires k < 8
    ensures r != b
  {
    Pow2Values();
    XorBitProps(b, k, 8);
    XorBit(b, k)
  }

  /** c ^= (1u << k) on a 32-bit value. */
  function FlipBit32(c: u32, k: nat): (r: u32)
    requires k < 32
    ensures r != c
  {
    Pow2Values();
    XorBitProps(c, k, 32);
    XorBit(c, k)
  }

  /** zlib's crc32() over a run of octets. Its code is not part of this
      model: the constant is left undetermined, so every result proved here
      holds whatever CRC-32 implementation is linked in. */
  const Crc32: seq<byte> -> u32

  /** memcpy(out + pos, src, |src|). */
  method CopyInto(out: array<byte>, pos: nat, src: seq<byte>)
    requires pos + |src| <= out.Length
    modifies out
    ensures out[..pos + |src|] == old(out[..pos]) + src
    ensures out[pos + |src|..] == old(out[pos + |src|..])
  {
    var i := 0;
    while i < |src|
      invariant 0 <= i <= |src|
      invariant forall j :: 0 <= j < pos ==> out[j] == old(out[j])
      invariant forall j :: 0 <= j < i ==> out[pos + j] == src[j]
      invariant forall j :: pos + i <= j < out.Length ==> out[j] == old(out[j])
    {
      out[pos + i] := src[i];
      i := i + 1;
    }
    assert out[..pos + |src|] == old(out[..pos]) + src by {
      forall j | 0 <= j < pos + |src|
        ensures out[..pos + |src|][j] == (old(out[..pos]) + src)[j]
      {
        if j >= pos { assert out[pos + (j - pos)] == src[j - pos]; }
      }
    }
  }

  /** write_be32(out + pos, v). */
  method WriteBe32(out: array<byte>, pos: nat, v: u32)
    requires pos + 4 <= out.Length
    modifies out
    ensures out[..pos + 4] == old(out[..pos]) + Be32(v)
    ensures out[pos + 4..] == old(out[pos + 4..])
  {
    out[pos] := v / 0x100_0000;
    out[pos + 1] := v / 0x1_0000 % 0x100;
    out[pos + 2] := v / 0x100 % 0x100;
    out[pos + 3] := v % 0x100;
    assert out[..pos + 4] == old(out[..pos]) + Be32(v);
  }
}
